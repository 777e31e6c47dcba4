/** The pseudo-TCP socket.

The socket's private structure is kept in the groups it is written in.  Two
ghost fields hold what the groups stand for: `snd`, the send half, and `rcv`,
the receive half, both with unbounded stream positions; `Sends` and `Receives`
say how the 32-bit fields, the queues and the ring buffers represent them.
*/
module PseudoTcp {
  import opened Seq32
  import opened Fifo
  import opened Segments
  import opened States
  import opened Options
  import opened SendLoop
  import opened Connection
  import opened Acking
  import opened Steps
  import R = Reassembly
  import S = Sending

  class PseudoTcpSocket {
    const conv: u32
    var state: TcpState
    var tcb: Control
    var rx: Incoming
    const rbuf: PseudoTcpFifo
    var tx: Outgoing
    const sbuf: PseudoTcpFifo
    var size: Sizing
    var time: Timing
    var fast: Recovery
    var act: Activity

    ghost var snd: S.Sender
    ghost var rcv: R.Receiver
    ghost var sent: seq<byte>
    ghost var got: seq<byte>
    ghost var net: Network
    ghost var recoverPos: int
    ghost var strained: bool
    ghost var history: seq<TcpState>

    ghost predicate Buffers()
      reads sbuf, rbuf, sbuf.buffer, rbuf.buffer
    {
      && sbuf.Valid() && rbuf.Valid()
      && sbuf != rbuf && sbuf.buffer != rbuf.buffer
    }

    /** The send half is in order and represented. */
    ghost predicate Sends()
      reads this`tx, this`snd, sbuf`cells, sbuf`dataLength
    {
      && S.Ok(snd) && Queues(tx, snd)
      && sbuf.dataLength <= |sbuf.cells|
      && 7 <= |sbuf.cells| <= MAX_UNACKED
      && snd.kept == sbuf.cells[..sbuf.dataLength]
    }

    /** Data is dropped after a shutdown without FIN-ACK. */
    predicate Ignoring()
      reads this`tcb
    {
      !tcb.supportFinAck && tcb.shutdown != SdNone
    }

    /** The receive half is in order and represented. */
    ghost predicate Receives()
      reads this`rx, this`rcv, rbuf`cells, rbuf`dataLength
    {
      && rx.rcvNxt == Wrap(rcv.nxt) && rx.rcvWnd == rcv.wnd
      && rbuf.cells == rcv.cells && rbuf.dataLength == rcv.held <= |rcv.cells| < 0x4000_0000
      && Listed(rx.rlist, rcv.pieces) && Scaled(rx, |rcv.cells|)
    }

    /** A running retransmission timer means that the first queued segment has
        been transmitted. */
    ghost predicate Timer()
      reads this`time, this`snd
    {
      time.rtoBase != 0 ==> snd.k > 0
    }

    /** Everything but fast recovery and the dependence on the connection state. */
    ghost predicate Sound()
      reads this, sbuf, rbuf, sbuf.buffer, rbuf.buffer
    {
      && Buffers() && Sends() && Receives() && Timer() && Bounded(size, strained)
      && (!Ignoring() ==> R.Safe(rcv))
      && MIN_RTO <= time.rxRto <= MAX_RTO && fast.ssthresh <= 0x4000_0000
      && History(history) && history[|history| - 1] == state
    }

    /** Everything but the dependence on the connection state. */
    ghost predicate Core()
      reads this, sbuf, rbuf, sbuf.buffer, rbuf.buffer
    {
      Sound() && (state == Closed || Recovering(fast, size, snd, recoverPos, strained))
    }

    ghost predicate Valid()
      reads this, sbuf, rbuf, sbuf.buffer, rbuf.buffer
    {
      Core() && Coupled(state, tcb.supportFinAck, snd, time.rtoBase)
    }

    /** What has been given to the network since a call started at `g`. */
    ghost predicate Since(g: Start)
      reads this`net, this`snd, this`rcv, this`rx
    {
      && Emitted(g, net, snd.stream, snd.nxt, rcv.nxt, rx.rwndScale)
      && g.una <= snd.una && g.ack <= rcv.nxt
    }

    /** The announced window stays left of the edge. */
    ghost predicate Within(g: Start)
      reads this`rcv
    {
      rcv.nxt + rcv.wnd <= g.edge
    }

    /** What this end brings to the handshake. */
    function AsParty(): Party
      reads this`tcb, this`rx, this`tx
    {
      Party(tcb.supportWndScale, rx.rwndScale, tx.swndScale, tcb.supportFinAck)
    }

    lemma HeldFits()
      requires Valid()
      ensures rbuf.dataLength == rcv.held <= |rcv.cells| && sbuf != rbuf
    {
      hide Sends, Timer, Bounded, R.Safe, History, Recovering, Coupled;
    }

    /** Until a FIN or RST is queued, the queue splits the send buffer into segments
        that follow each other from `snd_una`; those transmitted come first, the
        second queue is exactly the rest, and `snd_nxt` lies between. */
    lemma QueuesPartitionBuffer()
      requires Valid() && !snd.stream.sealed
      ensures Total(tx.slist) == sbuf.dataLength && |tx.unsent| <= |tx.slist|
      ensures tx.unsent == tx.slist[|tx.slist| - |tx.unsent|..]
      ensures forall i :: 0 <= i < |tx.slist| ==>
                tx.slist[i].sn == Add(tx.sndUna, Total(tx.slist[..i]))
                    && (tx.slist[i].xmit == 0 <==> |tx.slist| - |tx.unsent| <= i)
      ensures Sub(tx.sndNxt, tx.sndUna) == Total(tx.slist[..|tx.slist| - |tx.unsent|])
    {
      hide S.Ok, R.Safe, Wrap, Sub, Add, PseudoTcpFifo.Valid, Coupled, History, Recovering, Bounded, Receives, Total;
      PartitionByNumbers(snd);
    }

    /** A running retransmission timer means that there is a first segment and that
        it has been transmitted. */
    lemma RunningTimerHasSegment()
      requires Valid() && time.rtoBase != 0
      ensures tx.slist != [] && tx.slist[0].xmit > 0
    {
      hide R.Safe, Wrap, PseudoTcpFifo.Valid, Coupled, History, Recovering, Bounded, Receives, Total, S.Partition,
        S.Closing, EmptyAtEnd;
    }

    /** The arithmetic bounds that every socket keeps. */
    lemma ArithmeticBounds()
      requires Valid()
      ensures 250 <= time.rxRto <= 60000 && 180 <= size.mss <= 65419 && size.mss * size.mss < 0x1_0000_0000
      ensures !strained ==> size.cwnd >= size.mss
    {
      hide Buffers, Sends, Receives, Timer, R.Safe, History, Recovering, Coupled;
      SquareFits(size.mss);
    }

    /** A socket has changed state at most seven times, always forward, and is done
        once closed. */
    lemma StatesGoForward()
      requires Valid()
      ensures |history| <= 8 && history[0] == Listen && history[|history| - 1] == state
      ensures forall i :: 0 <= i < |history| - 1 ==> history[i] != Closed && Allowed(history[i], history[i + 1])
      ensures |history| > 1 && state == Closed ==> history[|history| - 2] in {Listen, SynSent, TimeWait, LastAck}
    {
      hide Buffers, Sends, Receives, Timer, R.Safe, Bounded, Recovering, Coupled, Rank;
      HistoryIsBounded(history);
      forall i | 0 <= i < |history| - 1 ensures Allowed(history[i], history[i + 1]) {
        assert Forward(history[i + 1 - 1], history[i + 1]);
      }
    }

    ghost function View(): End
      reads this
    {
      End(snd, rcv, sent, got, net.out, tx.sndWnd, AsParty(), Ignoring())
    }

    constructor (conversation: u32, finAck: bool)
      ensures Valid()
      ensures New(View()) && state == Listen && history == [Listen] && tcb.supportFinAck == finAck
      ensures fresh(sbuf) && fresh(rbuf) && fresh(sbuf.buffer) && fresh(rbuf.buffer)
    {
      hide S.Ok, R.Safe, Wrap, PseudoTcpFifo.Valid, Coupled, Scaled;
      conv := conversation;
      state := Listen;
      tcb := Control(SdNone, false, 0, true, false, true, true, finAck);
      rx := Incoming([], DEFAULT_RCV_BUF_SIZE, 0, DEFAULT_RCV_BUF_SIZE, 0);
      rbuf := new PseudoTcpFifo(DEFAULT_RCV_BUF_SIZE);
      tx := Outgoing([], [], DEFAULT_SND_BUF_SIZE, 0, 1, 0, 0);
      sbuf := new PseudoTcpFifo(DEFAULT_SND_BUF_SIZE);
      size := Sizing(MIN_PACKET - PACKET_OVERHEAD, 0, 0, MAX_PACKET, 2 * (MIN_PACKET - PACKET_OVERHEAD));
      time := Timing(0, 0, 0, 0, DEF_RTO, 100);
      fast := Recovery(DEFAULT_RCV_BUF_SIZE, 0, 0);
      act := Activity(0, 0, 0, 0, 0, false);
      snd := S.Sender(S.Stream([], 0, false), 0, 0, [], [], 0, 0, false);
      sent, got, net, recoverPos, strained, history := [], [], Network([], 0), 0, false, [Listen];
      new;
      rcv := R.Receiver(0, DEFAULT_RCV_BUF_SIZE, rbuf.cells, 0, []);
      WrapNear(0);
      S.NothingQueued(snd);
      R.NothingReceived(rcv);
      StartsCoupled(snd, finAck);
      ScaledStart(rx);
      assert sbuf.cells[..0] == [];
    }

    method CurrentTime() returns (now: u32) {
      now := *;
    }

    /** The network takes a packet, or does not. */
    method WritePacket() returns (wres: WriteResult) {
      wres := *;
    }

    /** Builds a packet and gives it to the network.  A refused packet without
        payload counts as sent and lost. */
    method Packet(sn: u32, flags: Flags, offset: nat, len: nat, now: u32, ghost pos: int) returns (wres: WriteResult)
      requires sbuf.Valid()
      requires len > 0 ==> offset + len <= sbuf.dataLength
      requires HEADER_SIZE + len <= MAX_PACKET
      modifies this`net, this`act
      ensures wres != Success ==> net == Network(old(net).out, old(net).failures + 1)
      ensures wres == Success ==>
                net == Network(old(net).out + [S.Packet(pos, rcv.nxt,
                  S.Segment(conv, sn, rx.rcvNxt, flags, WindowField(rx.rcvWnd, rx.rwndScale),
                            if len == 0 then [] else sbuf.cells[offset..offset + len], now, time.tsRecent))],
                  old(net).failures)
      ensures len == 0 ==> wres == Success
      ensures wres == Success ==> Stamped(old(act), act, len > 0, now)
      ensures wres != Success ==> act == old(act).(tsLastAck := act.tsLastAck)
    {
      var data: seq<byte> := [];
      if len > 0 {
        data := sbuf.ReadOffset(len, offset);
        assert |data| == len;
      }
      var segment := S.Segment(conv, sn, rx.rcvNxt, flags, WindowField(rx.rcvWnd, rx.rwndScale), data, now,
                               time.tsRecent);
      act := act.(tsLastAck := rx.rcvNxt);
      wres := WritePacket();
      if wres != Success && len != 0 {
        net := net.(failures := net.failures + 1);
        return;
      }
      net := net.(out := net.out + [S.Packet(pos, rcv.nxt, segment)]);
      act := act.(tAck := 0, lastSend := if len > 0 then now else act.lastSend, lastTraffic := now, bOutgoing := true);
      wres := Success;
    }

    /** Cuts segment `i` after `n` bytes, in both queues it may be in. */
    method CutSegment(i: nat, n: nat)
      requires Queues(tx, snd) && SentPrefix(snd.slist, snd.k)
      requires i < |tx.slist| && i <= snd.k && n <= tx.slist[i].len
      modifies this`tx, this`snd
      ensures Queues(tx, snd) && snd == S.Cut(old(snd), i, n)
      ensures tx == old(tx).(slist := tx.slist, unsent := tx.unsent)
    {
      hide Wrap, Split, Rest;
      CutTail(snd, i, n);
      var seg := tx.slist[i];
      if seg.xmit == 0 {
        tx := tx.(unsent := [seg.(len := n), Rest(seg, n)] + tx.unsent[1..]);
      }
      tx := tx.(slist := Split(tx.slist, i, n));
      snd := S.Cut(snd, i, n);
    }

    /** Counts a transmission of segment `i`. */
    method MarkSegment(i: nat)
      requires Queues(tx, snd) && SentPrefix(snd.slist, snd.k)
      requires i < |tx.slist| && (i == 0 || i == snd.k)
      modifies this`tx, this`snd
      ensures Queues(tx, snd) && snd == S.Mark(old(snd), i)
      ensures tx == old(tx).(slist := tx.slist, unsent := tx.unsent, sndNxt := tx.sndNxt)
    {
      hide Wrap, Add;
      var seg := tx.slist[i];
      ghost var before := tx;
      MarkedRest(snd.slist, snd.k, i);
      hide SentPrefix;
      if seg.xmit == 0 {
        WrapArithmetic(snd.nxt, seg.len);
        WrapArithmetic(snd.nxt + seg.len, 1);
        tx := tx.(unsent := tx.unsent[1..], sndNxt := Add(tx.sndNxt, seg.len));
        if seg.len == 0 && seg.flags.fin {
          tx := tx.(sndNxt := Add(tx.sndNxt, 1));
        }
      }
      tx := tx.(slist := tx.slist[i := seg.(xmit := seg.xmit + 1)]);
      MarkedQueues(before, tx, snd, i);
      snd := S.Mark(snd, i);
    }

    /** The next entry of the MTU table that makes the segment smaller. */
    method ReduceMss(nTransmit: nat) returns (fits: bool)
      requires Bounded(size, strained) && nTransmit <= size.mss
      modifies this`size
      ensures Bounded(size, strained) && Searched(old(size), size)
      ensures fits ==> old(size).msslevel < size.msslevel && size.mss < nTransmit
                       && size.mss == PACKET_MAXIMUMS[size.msslevel] - PACKET_OVERHEAD
      ensures !fits ==> size.msslevel == 9
    {
      while true
        invariant Bounded(size, strained) && old(size).msslevel <= size.msslevel
        invariant size == old(size) || (size.mss == PACKET_MAXIMUMS[size.msslevel] - PACKET_OVERHEAD
                  && size.cwnd == 2 * size.mss)
        invariant size.largest == old(size).largest && size.mtuAdvise == old(size).mtuAdvise
        invariant size.mss <= old(size).mss || nTransmit <= 180
        decreases 10 - size.msslevel
      {
        if PACKET_MAXIMUMS[size.msslevel + 1] == 0 {
          return false;
        }
        size := size.(msslevel := size.msslevel + 1, mss := PACKET_MAXIMUMS[size.msslevel + 1] - PACKET_OVERHEAD);
        size := size.(cwnd := 2 * size.mss);
        if size.mss < nTransmit {
          return true;
        }
      }
    }

    /** Offers the first bytes of segment `i` to the network, fewer of them while
        it finds the packet too large. */
    method Offer(i: nat, now: u32) returns (ok: bool, n: nat)
      requires sbuf.Valid() && Bounded(size, strained)
      requires i < |tx.slist| && Sub(tx.slist[i].sn, tx.sndUna) + tx.slist[i].len <= sbuf.dataLength <= |sbuf.cells|
      modifies this`size, this`net, this`act
      ensures Bounded(size, strained)
      ensures Searched(old(size), size)
      ensures n <= tx.slist[i].len && (tx.slist[i].len > 0 ==> n > 0)
      ensures !ok ==> net.out == old(net).out && net.failures > old(net).failures && tx.slist[i].len > 0
      ensures if ok then Stamped(old(act), act, n > 0, now) else act == old(act).(tsLastAck := act.tsLastAck)
      ensures ok ==>
                var seg := tx.slist[i];
                var o := Sub(seg.sn, tx.sndUna);
                net.out == old(net).out + [S.Packet(if seg.flags.rst then seg.sn else snd.una + o, rcv.nxt,
                  S.Segment(conv, seg.sn, rx.rcvNxt, seg.flags, WindowField(rx.rcvWnd, rx.rwndScale),
                            sbuf.cells[o..o + n], now, time.tsRecent))]
      ensures old(net).failures <= net.failures
      ensures net.failures == old(net).failures ==> ok && size == old(size) && n == Min(tx.slist[i].len, size.mss)
    {
      hide Sub, Wrap, WindowField, PseudoTcpFifo.Valid;
      var seg := tx.slist[i];
      n := Min(seg.len, size.mss);
      while true
        invariant n <= seg.len && n <= size.mss && (seg.len > 0 ==> n > 0)
        invariant Bounded(size, strained)
        invariant net.out == old(net).out && old(net).failures <= net.failures
        invariant act == old(act).(tsLastAck := act.tsLastAck)
        invariant Searched(old(size), size)
        invariant net.failures == old(net).failures ==> size == old(size) && n == Min(seg.len, size.mss)
        decreases 10 - size.msslevel
      {
        var wres := Packet(seg.sn, seg.flags, Sub(seg.sn, tx.sndUna), n, now,
                           if seg.flags.rst then seg.sn else snd.una + Sub(seg.sn, tx.sndUna));
        if wres == Success {
          assert n == 0 ==> sbuf.cells[Sub(seg.sn, tx.sndUna)..Sub(seg.sn, tx.sndUna) + n] == [];
          return true, n;
        }
        if wres == Fail {
          return false, n;
        }
        var fits := ReduceMss(n);
        if !fits {
          return false, n;
        }
        n := size.mss;
      }
    }

    function XmitLimit(): nat
      reads this`state
    {
      if state == Established then 15 else 30
    }

    /** Sends segment `i`, or the part of it that the network takes, and enters
        the transmission.  `aborted` is the assertion that the segment has not
        been acknowledged. */
    method Transmit(i: nat, now: u32) returns (ok: bool, aborted: bool, ghost n: nat)
      requires sbuf.Valid() && Sends() && Timer() && rx.rcvNxt == Wrap(rcv.nxt)
      requires Bounded(size, strained)
      requires i < |tx.slist| && (i == 0 || i == snd.k)
      requires snd.stream.sealed || tx.slist[i].len > 0
      requires tx.slist[i].flags.rst ==> i == snd.k
      modifies this`tx, this`snd, this`size, this`net, this`act, this`time
      ensures Sends() && Timer() && Bounded(size, strained)
      ensures Searched(old(size), size)
      ensures time == if ok then ArmedBy(old(time), now) else old(time)
      ensures tx == old(tx).(slist := tx.slist, unsent := tx.unsent, sndNxt := tx.sndNxt)
      ensures aborted <==> old(tx.slist[i].xmit) < XmitLimit() && old(snd.finAcked && !tx.slist[i].flags.rst)
      ensures ok ==>
                !aborted && old(tx.slist[i].xmit) < XmitLimit() && n <= old(tx.slist[i].len)
                && (old(tx.slist[i].len) > 0 ==> n > 0)
                && snd == S.Transmitted(old(snd), i, n) && snd.k > 0
      ensures !ok ==> snd == old(snd) && tx == old(tx)
      ensures Later(old(snd), snd)
      ensures old(net).failures <= net.failures
      ensures ok ==> |net.out| == |old(net).out| + 1 && old(net).out <= net.out
                     && Fresh(net.out[|old(net).out|], snd.stream, rcv.nxt, WindowField(rx.rcvWnd, rx.rwndScale),
                              snd.una, snd.nxt)
                     && |net.out[|old(net).out|].seg.data| == n
                     && net.out[|old(net).out|].seg.flags == old(tx.slist[i].flags)
                     && (i == old(snd.k) && n > 0 ==> net.out[|old(net).out|].pos + n == snd.nxt)
                     && (i == 0 ==> OfHead(net.out[|old(net).out|], old(snd)))
      ensures !ok ==> net.out == old(net).out
      ensures if ok then Stamped(old(act), act, n > 0, now) else act == old(act).(tsLastAck := act.tsLastAck)
      ensures net.failures == old(net).failures ==>
                size == old(size) && (ok || aborted || old(tx.slist[i].xmit) >= XmitLimit())
      ensures old(tx.slist[i].len) == 0 ==> ok || aborted || old(tx.slist[i].xmit) >= XmitLimit()
    {
      hide S.Ok, S.Transmitted, S.WellCut, Total, Sub, Add, Wrap, WindowField, PseudoTcpFifo.Valid, Bounded, NoReset;
      ok, aborted, n := false, false, 0;
      if tx.slist[i].xmit >= XmitLimit() {
        return;
      }
      SegmentOffset(snd, i);
      if Sub(tx.slist[i].sn, tx.sndUna) > MAX_UNACKED {
        aborted := true;
        return;
      }
      var taken;
      ok, taken := Offer(i, now);
      if !ok {
        return;
      }
      n := taken;
      SegmentPacket(snd, i, n, net.out[|old(net).out|], sbuf.cells);
      S.LaidEmpty(0, 0);
      assert i == 0 ==> snd.slist[..i] == [];
      Enter(i, taken, now);
    }

    /** Enters a transmission that the network took. */
    method Enter(i: nat, n: nat, now: u32)
      requires Sends() && i < |tx.slist| && (i == 0 || i == snd.k) && (!snd.finAcked || tx.slist[i].flags.rst)
      requires n <= tx.slist[i].len && (tx.slist[i].len > 0 ==> n > 0) && (snd.stream.sealed || tx.slist[i].len > 0)
      modifies this`tx, this`snd, this`time
      ensures Sends() && snd == S.Transmitted(old(snd), i, n) && snd.k > 0 && Later(old(snd), snd)
      ensures n > 0 ==> old(snd.una + Total(snd.slist[..i])) + n <= snd.nxt
      ensures n > 0 && i == old(snd.k) ==> old(snd.una + Total(snd.slist[..i])) + n == snd.nxt
      ensures tx == old(tx).(slist := tx.slist, unsent := tx.unsent, sndNxt := tx.sndNxt)
      ensures time == ArmedBy(old(time), now)
    {
      hide S.Ok, S.Transmitted, Total, Wrap, NoReset;
      S.TransmittedKeeps(snd, i, n);
      TransmittedPosition(snd, i, n);
      EnterTransmission(i, n);
      if time.rtoBase == 0 {
        time := time.(rtoBase := now);
      }
    }

    /** The queue part of a transmission. */
    method EnterTransmission(i: nat, n: nat)
      requires Queues(tx, snd) && S.Ok(snd) && i < |tx.slist| && (i == 0 || i == snd.k) && n <= tx.slist[i].len
      modifies this`tx, this`snd
      ensures Queues(tx, snd) && snd == S.Transmitted(old(snd), i, n)
      ensures tx == old(tx).(slist := tx.slist, unsent := tx.unsent, sndNxt := tx.sndNxt)
    {
      hide Laid, Total, S.Cut, S.Mark, S.Closing, S.Partition, Wrap;
      if n < tx.slist[i].len {
        S.CutShape(snd, i, n);
        CutSent(snd, i, n);
        CutSegment(i, n);
      }
      MarkSegment(i);
    }

    /** One turn of the send loop: the first segment never transmitted goes out,
        cut to `limit` bytes unless everything is being flushed. */
    method SendNext(limit: nat, flush: bool, now: u32) returns (ok: bool)
      requires sbuf.Valid() && Sends() && Timer() && rx.rcvNxt == Wrap(rcv.nxt) && Bounded(size, strained)
      requires tx.unsent != [] && (snd.finAcked ==> tx.unsent[0].flags.rst)
      requires if flush then snd.stream.sealed else limit > 0 && tx.unsent[0].len > 0
      modifies this`tx, this`snd, this`size, this`net, this`act, this`time
      ensures Sends() && Timer() && Bounded(size, strained) && Searched(old(size), size)
      ensures time == if ok then ArmedBy(old(time), now) else old(time)
      ensures tx == old(tx).(slist := tx.slist, unsent := tx.unsent, sndNxt := tx.sndNxt)
      ensures Turned(old(snd), snd, old(net), net, old(size), size, limit, flush, ok, rcv.nxt,
                     WindowField(rx.rcvWnd, rx.rwndScale))
      ensures if ok then Stamped(old(act), act, old(tx.unsent)[0].len > 0, now)
              else act == old(act).(tsLastAck := act.tsLastAck)
      ensures ok && !flush ==> |net.out| == |old(net.out)| + 1 && net.out[|old(net.out)|].seg.data != []
    {
      hide S.Ok, S.Transmitted, S.Cut, Total, Wrap, WindowField, PseudoTcpFifo.Valid, Turned, Later;
      ghost var before := snd;
      var k := |tx.slist| - |tx.unsent|;
      WaitingHead(snd);
      if tx.unsent[0].len > limit && !flush {
        S.CutKeeps(snd, k, limit);
        CutWaiting(snd, limit);
        CutSegment(k, limit);
      }
      ghost var cut := snd;
      WaitingHead(cut);
      var aborted;
      ghost var n;
      ok, aborted, n := Transmit(k, now);
      if ok {
        TurnSent(before, cut, old(net), net, old(size), size, limit, flush, n, rcv.nxt,
                 WindowField(rx.rcvWnd, rx.rwndScale));
      } else {
        FinIsEmpty(before, k);
        TurnFailed(before, cut, old(net), net, old(size), size, limit, flush, rcv.nxt,
                   WindowField(rx.rcvWnd, rx.rwndScale));
      }
    }

    /** What the send loop looks at. */
    function Sits(): Sitting
      reads this`tcb, this`tx, this`size, this`fast, sbuf`dataLength
    {
      Sitting(tcb.useNagling, tx, sbuf.dataLength, size, fast.dupAcks)
    }

    /** What it looks at if it starts at time `now`. */
    function Rested(now: u32): Sitting
      reads this`tcb, this`tx, this`size, this`fast, this`act, this`time, sbuf`dataLength
    {
      Sits().(size := AfterPause(size, act, time, now))
    }

    ghost function Flies(): Flight
      reads this`snd, this`tx, this`size, this`time, this`fast, this`act, this`net
    {
      Flight(snd, tx, size, time, fast, act, net)
    }

    /** How things stand at time `at`. */
    ghost function Stands(flags: SendFlags, at: u32): Entry
      reads this`tcb, this`tx, this`size, this`fast, this`act, this`time, this`net, sbuf`dataLength
    {
      Entry(Sits(), flags, act, time, net, at)
    }

    /** How the send loop is entered at that time. */
    ghost function Enters(flags: SendFlags, at: u32): Entry
      reads this`tcb, this`tx, this`size, this`fast, this`act, this`time, this`net, sbuf`dataLength
    {
      Stands(flags, at).(sits := Rested(at))
    }

    /** The reply to a segment at `pos` when `wanted` was the position wanted: `m` is what
        its acknowledgement has left, `e` how the send loop was entered. */
    ghost predicate Replies(m: Flight, e: Entry, seg: S.Segment, pos: int, wanted: int, opens: bool, waited: bool)
      reads this`tcb, this`tx, this`rx, this`size, this`fast, this`time, this`act, this`net, this`rcv, sbuf`dataLength
    {
      && Concludes(e) && Hands(m, e, opens, fast, time) && WaitsOn(waited)
      && CallsFor(e.flags, pos == wanted, seg.data != [], rcv.nxt > pos + |seg.data|, time.ackDelay)
    }

    /** How the send loop, entered as `e` says, has left things. */
    ghost predicate Concludes(e: Entry)
      reads this`tcb, this`tx, this`size, this`fast, this`act, this`time, this`net, this`rcv, sbuf`dataLength
    {
      Concluded(e, Sits(), act, time, net, rcv.nxt)
    }

    /** Bytes that may be sent now (the first part of the send loop). */
    method Available() returns (nAvailable: nat)
      requires sbuf.Valid() && Sends() && snd.fins < 0x1000_0000
      ensures nAvailable == Offerable(Sits()) <= size.mss
      ensures nAvailable > 0 ==>
                && snd.nxt + nAvailable <= snd.una + Min(tx.sndWnd, CongestionWindow(size, fast.dupAcks))
                && tx.unsent != [] && tx.unsent[0].len > 0 && !snd.finAcked
    {
      hide S.Ok, Wrap, Sub, Add, PseudoTcpFifo.Valid, Total;
      var cwnd := CongestionWindow(size, fast.dupAcks);
      var nWindow := Min(tx.sndWnd, cwnd);
      var nInFlight: int := Sub(tx.sndNxt, tx.sndUna);
      var nUseable := if nInFlight < nWindow then nWindow - nInFlight else 0;
      var sndBuffered := sbuf.GetBuffered();
      if sndBuffered < nInFlight {
        nAvailable := 0;
      } else {
        nAvailable := Min(sndBuffered - nInFlight, size.mss);
      }
      if nAvailable > nUseable {
        if Wrap(nUseable * 4) < nWindow {
          nAvailable := 0;
        } else {
          nAvailable := nUseable;
        }
      }
      BytesInFlight(snd);
    }

    /** Sends what the windows allow; a flush sends everything. */
    method AttemptSend(sflags0: SendFlags) returns (ghost at: u32)
      requires sbuf.Valid() && Sends() && Timer() && rx.rcvNxt == Wrap(rcv.nxt) && Bounded(size, strained)
      requires if Flushes(sflags0) then snd.stream.sealed else snd.fins < 0x1000_0000
      requires snd.finAcked ==> AllReset(tx.unsent)
      modifies this`tx, this`snd, this`size, this`net, this`act, this`time
      ensures Sends() && Timer() && Bounded(size, strained)
      ensures TimerKept(old(time), time)
      ensures tx == old(tx).(slist := tx.slist, unsent := tx.unsent, sndNxt := tx.sndNxt)
      ensures SentSince(old(snd), snd, old(net), net, old(size), size, tx.sndWnd, fast.dupAcks, Flushes(sflags0),
                        rcv.nxt, WindowField(rx.rcvWnd, rx.rwndScale))
      ensures Flushes(sflags0) ==> tx.unsent == [] || (Total(tx.unsent) > 0 && net.failures > old(net).failures)
      ensures Flushes(sflags0) ==> time == if |net.out| > |old(net).out| then ArmedBy(old(time), at) else old(time)
      ensures !Flushes(sflags0) ==> Turns(old(Enters(sflags0, at)), false, SfNone, Sits(), act, time, net)
      ensures old(tx.unsent) == [] ==> snd == old(snd) && time == old(time)
      ensures KeepsFins(old(snd), snd)
    {
      hide Turns, Goes, S.Ok, Wrap, PseudoTcpFifo.Valid, Total, WindowField, TimeDiff, SentSince, TimerKept,
        FinTotal, Sends, Timer, Bounded;
      var now := CurrentTime();
      at := now;
      var sflags := sflags0;
      ghost var field := WindowField(rx.rcvWnd, rx.rwndScale);
      ShrinkAfterPause(now, Flushes(sflags0));
      TimerKeptTwice(time, time, time);
      ghost var e := Stands(sflags0, now);
      var again := true;
      while again
        invariant sbuf.Valid() && Sends() && Timer() && Bounded(size, strained)
        invariant snd.k <= |snd.slist|
        invariant TimerKept(old(time), time)
        invariant tx == old(tx).(slist := tx.slist, unsent := tx.unsent, sndNxt := tx.sndNxt)
        invariant SentSince(old(snd), snd, old(net), net, old(size), size, tx.sndWnd, fast.dupAcks, Flushes(sflags0),
                            rcv.nxt, field)
        invariant old(net.out) <= net.out && old(net.failures) <= net.failures
        invariant Flushes(sflags) ==>
                    time == if |net.out| > |old(net).out| then ArmedBy(old(time), now) else old(time)
        invariant !Flushes(sflags) && again ==>
                    Stands(sflags, now) == e || (Goes(e, act, time, net) && sflags == SfNone)
        invariant !Flushes(sflags) && !again ==> Turns(e, false, SfNone, Sits(), act, time, net)
        invariant Flushes(sflags) <==> Flushes(sflags0)
        invariant if Flushes(sflags) then snd.stream.sealed else snd.fins < 0x1000_0000
        invariant snd.finAcked ==> AllReset(tx.unsent)
        invariant old(tx.unsent) == [] ==> tx.unsent == [] && snd == old(snd) && time == old(time)
        invariant KeepsFins(old(snd), snd)
        invariant !again && Flushes(sflags) ==>
                  tx.unsent == [] || (Total(tx.unsent) > 0 && net.failures > old(net).failures)
        decreases again, Total(tx.unsent), |tx.unsent|
      {
        ghost var t, f := time, Stands(sflags, now);
        again, sflags := Turn(sflags, now, old(snd), old(net), old(size));
        TimerKeptTwice(old(time), t, time);
        if !Flushes(sflags) {
          TurnsOn(e, f, again, if again then sflags else SfNone, Sits(), act, time, net);
        }
      }
    }

    /** After a pause the congestion window is one segment. */
    method ShrinkAfterPause(now: u32, ghost flush: bool)
      requires Sends() && Bounded(size, strained)
      modifies this`size
      ensures Bounded(size, strained) && old(size.mss) <= MAX_PACKET && snd.k <= |snd.slist|
      ensures size == AfterPause(old(size), act, time, now)
      ensures SentSince(snd, snd, net, net, old(size), size, tx.sndWnd, fast.dupAcks, flush, rcv.nxt,
                        WindowField(rx.rcvWnd, rx.rwndScale))
    {
      hide S.Ok, Wrap, Total, WindowField, TimeDiff, SentSince, CongestionWindow, WidestWindow;
      if TimeDiff(now, act.lastSend) > time.rxRto {
        size := size.(cwnd := size.mss);
      }
      NothingSentYet(snd, net, old(size), size, tx.sndWnd, fast.dupAcks, flush, rcv.nxt,
                     WindowField(rx.rcvWnd, rx.rwndScale));
    }

    /** The body of the send loop. */
    method Turn(sflags: SendFlags, now: u32, ghost s0: S.Sender, ghost n0: Network, ghost z0: Sizing)
      returns (again: bool, next: SendFlags)
      requires sbuf.Valid() && Sends() && Timer() && rx.rcvNxt == Wrap(rcv.nxt) && Bounded(size, strained)
      requires if Flushes(sflags) then snd.stream.sealed else snd.fins < 0x1000_0000
      requires snd.finAcked ==> AllReset(tx.unsent)
      requires SentSince(s0, snd, n0, net, z0, size, tx.sndWnd, fast.dupAcks, Flushes(sflags), rcv.nxt,
                         WindowField(rx.rcvWnd, rx.rwndScale))
      requires z0.mss <= MAX_PACKET
      modifies this`tx, this`snd, this`size, this`net, this`act, this`time
      ensures Sends() && Timer() && Bounded(size, strained)
      ensures TimerKept(old(time), time)
      ensures tx == old(tx).(slist := tx.slist, unsent := tx.unsent, sndNxt := tx.sndNxt)
      ensures SentSince(s0, snd, n0, net, z0, size, tx.sndWnd, fast.dupAcks, Flushes(sflags), rcv.nxt,
                        WindowField(rx.rcvWnd, rx.rwndScale))
      ensures Flushes(next) <==> Flushes(sflags)
      ensures if Flushes(next) then snd.stream.sealed else snd.fins < 0x1000_0000
      ensures snd.finAcked ==> AllReset(tx.unsent)
      ensures again ==> Total(tx.unsent) < Total(old(tx.unsent))
                        || (Total(tx.unsent) == Total(old(tx.unsent)) && |tx.unsent| < |old(tx.unsent)|)
      ensures !again && Flushes(sflags) ==> tx.unsent == [] || (Total(tx.unsent) > 0 && net.failures > n0.failures)
      ensures old(net.out) <= net.out && old(net.failures) <= net.failures
      ensures !Flushes(sflags) ==>
                Turns(old(Stands(sflags, now)), again, if again then next else SfNone, Sits(), act, time, net)
      ensures Flushes(sflags) ==> time == if |net.out| > |old(net).out| then ArmedBy(old(time), now) else old(time)
      ensures old(tx.unsent) == [] ==> tx.unsent == [] && snd == old(snd) && time == old(time)
      ensures KeepsFins(old(snd), snd)
    {
      hide S.Ok, Wrap, PseudoTcpFifo.Valid, Total, WindowField, Turned, SentSince, Searched, Timer, CongestionWindow,
        FinTotal, Offerable, Turns, Stamped;
      again, next := false, sflags;
      ghost var e := Stands(sflags, now);
      var nAvailable := 0;
      if !Flushes(sflags) {
        nAvailable := Available();
        if nAvailable == 0 {
          Acknowledge(sflags, now, s0, n0, z0);
          TurnIdle(e, Sits(), act, net);
          return;
        }
        if tcb.useNagling && tx.sndNxt > tx.sndUna && nAvailable < size.mss {
          TurnHeld(e);
          return;
        }
      }
      if tx.unsent == [] {
        return;
      }
      ghost var s, m, z := snd, net, size;
      EmptyHead(tx.unsent);
      again := SendNext(nAvailable, Flushes(sflags), now);
      SentMore(s0, s, snd, n0, m, net, z0, z, size, tx.sndWnd, fast.dupAcks, nAvailable, Flushes(sflags), again,
               rcv.nxt, WindowField(rx.rcvWnd, rx.rwndScale));
      if !Flushes(sflags) {
        TurnSends(e, again, Sits(), act, time, net);
      }
      if again && (sflags == SfImmediateAck || sflags == SfDelayedAck) {
        next := SfNone;
      }
    }

    /** Nothing to send: the acknowledgement asked for, now or later. */
    method Acknowledge(sflags: SendFlags, now: u32, ghost s: S.Sender, ghost n: Network, ghost z: Sizing)
      requires sbuf.Valid() && Sends() && rx.rcvNxt == Wrap(rcv.nxt) && !Flushes(sflags)
      requires SentSince(s, snd, n, net, z, size, tx.sndWnd, fast.dupAcks, false, rcv.nxt,
                         WindowField(rx.rcvWnd, rx.rwndScale))
      modifies this`net, this`act
      ensures SentSince(s, snd, n, net, z, size, tx.sndWnd, fast.dupAcks, false, rcv.nxt,
                        WindowField(rx.rcvWnd, rx.rwndScale))
      ensures old(net.out) <= net.out && old(net.failures) <= net.failures
      ensures if sflags == SfImmediateAck || (sflags != SfNone && old(act.tAck) != 0) then
                && |net.out| == |old(net).out| + 1 && net.out[|old(net).out|].seg.data == []
                && net.failures == old(net.failures) && Stamped(old(act), act, false, now)
              else net == old(net) && act == old(act).(tAck := if sflags == SfNone then old(act.tAck) else now)
    {
      hide S.Ok, Wrap, PseudoTcpFifo.Valid, Total, WindowField, CongestionWindow, SentSince;
      SentParts(s, snd, n, net, z, size, tx.sndWnd, fast.dupAcks, false, rcv.nxt, WindowField(rx.rcvWnd, rx.rwndScale));
      if sflags == SfNone {
        return;
      }
      if sflags == SfImmediateAck || act.tAck != 0 {
        SendAck(now);
        SentEmpty(s, snd, n, old(net), net, z, size, tx.sndWnd, fast.dupAcks, rcv.nxt,
                  WindowField(rx.rcvWnd, rx.rwndScale));
      } else {
        act := act.(tAck := now);
      }
    }

    /** A packet without payload. */
    method SendAck(now: u32)
      requires sbuf.Valid() && Sends() && rx.rcvNxt == Wrap(rcv.nxt)
      modifies this`net, this`act
      ensures Delivered(old(net), net, snd, rcv.nxt, WindowField(rx.rcvWnd, rx.rwndScale))
      ensures |net.out| == |old(net).out| + 1 && net.out[|old(net).out|].seg.data == []
                && net.failures == old(net).failures && Stamped(old(act), act, false, now)
    {
      hide S.Ok, Wrap, WindowField, PseudoTcpFifo.Valid;
      var w := Packet(tx.sndNxt, FLAG_NONE, 0, 0, now, snd.nxt);
    }

    /** Appends bytes to the send buffer and to the queue. */
    method Queue(data: seq<byte>, flags: Flags) returns (written: nat)
      requires Buffers() && Sends() && Queueable(snd, flags, |data|, |sbuf.cells|)
      modifies this`tx, this`snd, sbuf, sbuf.buffer
      ensures Buffers() && Sends() && sbuf.buffer == old(sbuf.buffer)
      ensures written == Min(|data|, |sbuf.cells| - old(sbuf.dataLength)) && |sbuf.cells| == |old(sbuf.cells)|
      ensures snd == S.Enqueue(old(snd), data[..written], flags)
      ensures tx == old(tx).(slist := tx.slist, unsent := tx.unsent)
    {
      hide S.Ok, Wrap, PseudoTcpFifo.Valid, Queues, S.Enqueue;
      var space := sbuf.GetWriteRemaining();
      var len := Min(|data|, space);
      ghost var accepted := data[..len];
      S.EnqueueKeeps(snd, accepted, flags);
      EnqueuedKept(snd, accepted, flags);
      var buffered := sbuf.GetBuffered();
      AppendSegment(len, buffered, flags, accepted);
      written := sbuf.Write(data[..len]);
      assert data[..len][..len] == data[..len];
    }

    /** The queue part of `queue`. */
    method AppendSegment(len: nat, buffered: nat, flags: Flags, ghost data: seq<byte>)
      requires Queues(tx, snd) && S.Ok(snd) && |data| == len && |snd.kept| == buffered
      modifies this`tx, this`snd
      ensures snd == S.Enqueue(old(snd), data, flags) && Queues(tx, snd)
      ensures tx == old(tx).(slist := tx.slist, unsent := tx.unsent)
    {
      hide S.Ok, Wrap, Add, S.Enqueue, Appended;
      QueuedWaiting(snd, data, flags);
      EnqueuedKept(snd, data, flags);
      S.AppendedCases(snd.slist, Wrap(snd.una + buffered), len, flags);
      if Joins(tx.slist, flags) {
        var last := tx.slist[|tx.slist| - 1];
        last := last.(len := last.len + len);
        tx := tx.(slist := tx.slist[|tx.slist| - 1 := last], unsent := tx.unsent[|tx.unsent| - 1 := last]);
      } else {
        WrapArithmetic(snd.una, buffered);
        var seg := SSegment(Add(tx.sndUna, buffered), len, 0, flags);
        tx := tx.(slist := tx.slist + [seg], unsent := tx.unsent + [seg]);
      }
      snd := S.Enqueue(snd, data, flags);
    }

    /** Cuts a segment to what is new and fits the ring. */
    method Trim(sn0: u32, data0: seq<byte>, ghost pos: int) returns (sn: u32, data: seq<byte>)
      requires Receives() && rbuf.Valid() && Near(pos, |data0|, rcv.nxt) && sn0 == Wrap(pos)
      ensures var (p, d) := R.TrimFront(pos, data0, rcv.nxt);
              && data == R.TrimBack(p, d, rcv.nxt + rcv.Free())
              && sn == Wrap(p)
    {
      hide Wrap, Sub, Add, Larger, PseudoTcpFifo.Valid, Listed;
      sn, data := sn0, data0;
      ghost var p := pos;
      LargerIsGreater(rcv.nxt, pos);
      if Smaller(sn, rx.rcvNxt) {
        WrapInjective(rcv.nxt, pos);
        var nAdjust: int := Sub(rx.rcvNxt, sn);
        if nAdjust < |data| {
          WrapArithmetic(pos, nAdjust);
          sn, data, p := Add(sn, nAdjust), data[nAdjust..], pos + nAdjust;
        } else {
          data := [];
        }
      }
      assert (p, data) == R.TrimFront(pos, data0, rcv.nxt);
      var available := rbuf.GetWriteRemaining();
      WrapArithmetic(p, |data|);
      WrapArithmetic(p + |data|, rcv.nxt);
      WrapNear(p + |data| - rcv.nxt);
      var reach: int := Sub(Add(sn, |data|), rx.rcvNxt);
      if reach > available {
        var nAdjust: int := reach - available;
        if nAdjust < |data| {
          data := data[..|data| - nAdjust];
        } else {
          data := [];
        }
      }
    }

    /** Bytes in order: into the ring, and with them every listed piece they
        connect to.  Returns whether a piece was released. */
    method StoreInOrder(data: seq<byte>) returns (released: bool)
      requires Buffers() && Receives() && R.Safe(rcv) && 0 < |data| <= rcv.Free()
      modifies this`rx, this`rcv, rbuf, rbuf.buffer
      ensures Buffers() && Receives() && rbuf.buffer == old(rbuf.buffer)
      ensures rcv == R.Store(old(rcv), old(rcv.nxt), data)
      ensures released <==> rcv.nxt > old(rcv.nxt) + |data|
      ensures rx == old(rx).(rlist := rx.rlist, rcvNxt := rx.rcvNxt, rcvWnd := rx.rcvWnd)
    {
      hide Wrap, Sub, Add, PseudoTcpFifo.Valid, Overwrite, R.Reach, R.Beyond, LargerOrEqual, Larger;
      ghost var r := rcv;
      var copy := rbuf.WriteOffset(data, 0);
      assert copy == |data| && data[..copy] == data;
      rbuf.ConsumeWriteBuffer(|data|);
      WrapArithmetic(rcv.nxt, |data|);
      rx := rx.(rcvNxt := Add(rx.rcvNxt, |data|), rcvWnd := Sub(rx.rcvWnd, |data|));
      ghost var n := r.nxt + |data|;
      ghost var ps := r.pieces;
      released := false;
      while rx.rlist != [] && SmallerOrEqual(rx.rlist[0].sn, rx.rcvNxt)
        invariant Buffers() && rcv == r && rbuf.buffer == old(rbuf.buffer)
                  && rbuf.cells == Overwrite(r.cells, r.held, data)
        invariant Listed(rx.rlist, ps) && R.Sorted(ps)
        invariant forall i :: 0 <= i < |ps| ==> r.nxt - R.LAG < ps[i].pos && ps[i].End() <= r.nxt + r.Free()
        invariant r.nxt <= n <= r.nxt + r.Free() && rbuf.dataLength == r.held + (n - r.nxt)
        invariant rx.rcvNxt == Wrap(n) && rx.rcvWnd == Sub(r.wnd, n - r.nxt)
        invariant n >= r.nxt + |data| && (released <==> n > r.nxt + |data|)
        invariant R.Reach(ps, n) == R.Reach(r.pieces, r.nxt + |data|)
        invariant R.Beyond(ps, n) == R.Beyond(r.pieces, r.nxt + |data|)
        invariant rx == old(rx).(rlist := rx.rlist, rcvNxt := rx.rcvNxt, rcvWnd := rx.rcvWnd)
        decreases |rx.rlist|
      {
        var seg := rx.rlist[0];
        PieceInReach(ps[0], n, r.nxt - R.LAG, r.nxt + r.Free());
        R.ReachStep(ps, n);
        if Larger(Add(seg.sn, seg.len), rx.rcvNxt) {
          var nAdjust: int := Sub(Add(seg.sn, seg.len), rx.rcvNxt);
          released := true;
          rbuf.ConsumeWriteBuffer(nAdjust);
          WrapArithmetic(n, nAdjust);
          SubTwice(r.wnd, n - r.nxt, nAdjust);
          rx := rx.(rcvNxt := Add(rx.rcvNxt, nAdjust), rcvWnd := Sub(rx.rcvWnd, nAdjust));
          n := n + nAdjust;
        }
        ps := ps[1..];
        rx := rx.(rlist := rx.rlist[1..]);
      }
      if ps != [] {
        PieceInReach(ps[0], n, r.nxt - R.LAG, r.nxt + r.Free());
      }
      R.ReachStop(ps, n);
      rcv := R.Store(rcv, rcv.nxt, data);
    }

    /** Bytes out of order: into the free part of the ring, and into the list. */
    method StoreOutOfOrder(sn: u32, data: seq<byte>, ghost pos: int)
      requires Buffers() && Receives() && R.Safe(rcv) && data != []
      requires sn == Wrap(pos) && rcv.nxt < pos && pos + |data| <= rcv.nxt + rcv.Free()
      modifies this`rx, this`rcv, rbuf, rbuf.buffer
      ensures Buffers() && Receives() && rbuf.buffer == old(rbuf.buffer)
      ensures rcv == R.Store(old(rcv), pos, data)
      ensures rx == old(rx).(rlist := rx.rlist)
    {
      hide Wrap, Sub, PseudoTcpFifo.Valid, Overwrite, R.Insert, Larger;
      WrapInjective(pos, rcv.nxt);
      var copy := rbuf.WriteOffset(data, Sub(sn, rx.rcvNxt));
      assert copy == |data| && data[..copy] == data;
      var i := FindPlace(rx.rlist, sn, rcv.pieces, pos);
      R.InsertAt(rcv.pieces, R.Piece(pos, |data|), i);
      rx := rx.(rlist := rx.rlist[..i] + [RSegment(sn, |data|)] + rx.rlist[i..]);
      rcv := R.Store(rcv, pos, data);
    }

    /** The receive half of `process`: what the segment's bytes and FIN do, and
        which acknowledgement they call for. */
    method AcceptSegment(seg: S.Segment, ghost pos: int) returns (sflags: SendFlags, newData: bool)
      requires Buffers() && Receives() && (!Ignoring() ==> R.Safe(rcv)) && Orderly(seg, pos, rcv, Ignoring())
      modifies this`rx, this`rcv, rbuf, rbuf.buffer
      ensures Buffers() && Receives() && (!Ignoring() ==> R.Safe(rcv)) && rbuf.buffer == old(rbuf.buffer)
      ensures rcv == R.ReceiveSegment(old(rcv), seg.flags.fin, seg.flags.ctl || Ignoring(), pos, seg.data)
      ensures seg.flags.fin && seg.data == [] ==>
                rcv == old(rcv).(nxt := rcv.nxt) && rcv.nxt == old(rcv.nxt) + if seg.sn == old(rx.rcvNxt) then 1 else 0
      ensures rx == old(rx).(rlist := rx.rlist, rcvNxt := rx.rcvNxt, rcvWnd := rx.rcvWnd)
      ensures CallsFor(sflags, seg.sn == old(rx.rcvNxt), seg.data != [], rcv.nxt > pos + |seg.data|, time.ackDelay)
    {
      hide Wrap, PseudoTcpFifo.Valid, Listed, Scaled, R.Safe, R.Leads, R.Receive, R.ReceiveIgnored;
      ghost var r := rcv;
      R.FinCountsOnce(r, pos);
      WrapInjective(pos, rcv.nxt);
      newData := false;
      sflags := AckCalledFor(seg, pos);
      if seg.flags.fin {
        AcceptFin(seg, pos, r);
      } else {
        var released;
        newData, released := AcceptBytes(seg, pos);
        if released {
          sflags := SfImmediateAck;
        }
      }
    }

    /** Which acknowledgement a segment calls for.  A FIN alone is counted here. */
    method AckCalledFor(seg: S.Segment, ghost pos: int) returns (sflags: SendFlags)
      requires Receives() && (!Ignoring() ==> R.Safe(rcv)) && Orderly(seg, pos, rcv, Ignoring())
      modifies this`rx, this`rcv
      ensures Receives() && (!Ignoring() ==> R.Safe(rcv))
      ensures rcv == if seg.flags.fin && seg.data == [] then R.ReceiveFin(old(rcv), pos, []) else old(rcv)
      ensures rx == old(rx).(rcvNxt := rx.rcvNxt)
      ensures sflags == if seg.sn != old(rx.rcvNxt) then SfImmediateAck
                        else if seg.data != [] then if time.ackDelay == 0 then SfImmediateAck else SfDelayedAck
                        else if seg.flags.fin then SfImmediateAck else SfNone
    {
      hide Wrap, Add, PseudoTcpFifo.Valid, Listed, Scaled, R.Safe, R.Leads;
      sflags := SfNone;
      WrapInjective(pos, rcv.nxt);
      R.FinCountsOnce(rcv, pos);
      if seg.sn != rx.rcvNxt {
        sflags := SfImmediateAck;
      } else if |seg.data| != 0 {
        sflags := if time.ackDelay == 0 then SfImmediateAck else SfDelayedAck;
      } else if seg.flags.fin {
        sflags := SfImmediateAck;
        TakePosition(1);
      }
    }

    /** The second place that counts a FIN; `r` is the receive half before the first. */
    method AcceptFin(seg: S.Segment, ghost pos: int, ghost r: R.Receiver)
      requires rbuf.Valid() && Receives() && (!Ignoring() ==> R.Safe(rcv))
      requires r.held <= |r.cells| && Orderly(seg, pos, r, Ignoring()) && seg.flags.fin
      requires rcv == if seg.data == [] then R.ReceiveFin(r, pos, []) else r
      modifies this`rx, this`rcv
      ensures Receives() && (!Ignoring() ==> R.Safe(rcv))
      ensures rcv == R.ReceiveFin(r, pos, seg.data) && rx == old(rx).(rcvNxt := rx.rcvNxt)
    {
      hide Wrap, Add, PseudoTcpFifo.Valid, Listed, Scaled, R.Safe, R.Leads;
      R.FinCountsOnce(r, pos);
      var sn, data := Trim(seg.sn, seg.data, pos);
      WrapInjective(R.TrimFront(pos, seg.data, rcv.nxt).0, rcv.nxt);
      if sn == rx.rcvNxt {
        TakePosition(1);
      }
    }

    /** The bytes of a segment without FIN. */
    method AcceptBytes(seg: S.Segment, ghost pos: int) returns (newData: bool, released: bool)
      requires Buffers() && Receives() && (!Ignoring() ==> R.Safe(rcv)) && Orderly(seg, pos, rcv, Ignoring())
                && !seg.flags.fin
      modifies this`rx, this`rcv, rbuf, rbuf.buffer
      ensures Buffers() && Receives() && (!Ignoring() ==> R.Safe(rcv)) && rbuf.buffer == old(rbuf.buffer)
      ensures rcv == R.ReceiveSegment(old(rcv), false, seg.flags.ctl || Ignoring(), pos, seg.data)
      ensures rx == old(rx).(rlist := rx.rlist, rcvNxt := rx.rcvNxt, rcvWnd := rx.rcvWnd)
      ensures seg.sn == old(rx.rcvNxt) ==> (released <==> rcv.nxt > pos + |seg.data|)
    {
      hide Wrap, Add, PseudoTcpFifo.Valid, Listed, R.Safe, R.Store, R.TrimFront, R.TrimBack;
      newData, released := false, false;
      WrapInjective(pos, rcv.nxt);
      if !seg.flags.ctl && !Ignoring() {
        R.BeyondIs(rcv, seg.data);
      }
      var sn, data := Trim(seg.sn, seg.data, pos);
      R.TrimFits(rcv, pos, seg.data);
      if |data| > 0 {
        ghost var p := R.TrimFront(pos, seg.data, rcv.nxt).0;
        WrapInjective(p, rcv.nxt);
        if seg.flags.ctl || Ignoring() {
          if sn == rx.rcvNxt {
            TakePosition(|data|);
          }
        } else {
          R.StoreSafe(rcv, p, data);
          if sn == rx.rcvNxt {
            released := StoreInOrder(data);
            newData := true;
          } else {
            StoreOutOfOrder(sn, data, p);
          }
        }
      }
    }

    /** Positions that carry nothing for the ring. */
    method TakePosition(n: nat)
      requires Receives()
      modifies this`rx, this`rcv
      ensures Receives() && rcv == old(rcv).(nxt := old(rcv).nxt + n)
      ensures rx == old(rx).(rcvNxt := rx.rcvNxt)
      ensures !Ignoring() && R.Safe(old(rcv)) && R.Leads(old(rcv), n) ==> R.Safe(rcv)
    {
      hide Wrap, Add, Listed;
      WrapArithmetic(rcv.nxt, n);
      rx := rx.(rcvNxt := Add(rx.rcvNxt, n));
      rcv := rcv.(nxt := rcv.nxt + n);
    }

    /** Sends, and adds what was sent to what the call has given to the network. */
    method Emit(sflags: SendFlags, ghost g: Start) returns (ghost at: u32)
      requires Sound() && Since(g) && Within(g)
      requires if Flushes(sflags) then snd.stream.sealed else snd.fins < 0x1000_0000
      requires snd.finAcked ==> AllReset(tx.unsent)
      modifies this`tx, this`snd, this`size, this`net, this`act, this`time
      ensures Sound() && Since(g)
      ensures TimerKept(old(time), time)
      ensures tx == old(tx).(slist := tx.slist, unsent := tx.unsent, sndNxt := tx.sndNxt)
      ensures SentSince(old(snd), snd, old(net), net, old(size), size, tx.sndWnd, fast.dupAcks, Flushes(sflags),
                        rcv.nxt, WindowField(rx.rcvWnd, rx.rwndScale))
      ensures Flushes(sflags) ==> tx.unsent == [] || (Total(tx.unsent) > 0 && net.failures > old(net).failures)
      ensures Flushes(sflags) ==> time == if |net.out| > |old(net).out| then ArmedBy(old(time), at) else old(time)
      ensures !Flushes(sflags) ==> Concludes(old(Enters(sflags, at)))
      ensures old(tx.unsent) == [] ==> snd == old(snd) && time == old(time)
      ensures KeepsFins(old(snd), snd)
    {
      hide S.Ok, Wrap, PseudoTcpFifo.Valid, Total, WindowField, Emitted, R.Safe, FinCount, Listed, History, Scaled,
        Bounded, SentSince, Searched;
      ghost var s, n, z, field := snd, net, size, WindowField(rx.rcvWnd, rx.rwndScale);
      at := AttemptSend(sflags);
      SentParts(s, snd, n, net, z, size, tx.sndWnd, fast.dupAcks, Flushes(sflags), rcv.nxt, field);
      EmittedSince(g, n, net, s, snd, rcv.nxt, rcv.wnd, rx.rwndScale);
      hide Turns;
      if !Flushes(sflags) {
        TurnsEnd(old(Enters(sflags, at)), Sits(), act, time, net, snd, rcv.nxt, field);
      }
    }

    /** Sends within the windows. */
    method Push(sflags: SendFlags, ghost g: Start) returns (ghost at: u32)
      requires Valid() && Since(g) && Within(g) && !Flushes(sflags)
      modifies this`tx, this`snd, this`size, this`net, this`act, this`time
      ensures Valid() && Since(g)
      ensures Later(old(snd), snd) && snd.fins == old(snd.fins) && snd.nxt <= Max(old(snd.nxt), snd.una + tx.sndWnd)
      ensures tx == old(tx).(slist := tx.slist, unsent := tx.unsent, sndNxt := tx.sndNxt)
      ensures TimerKept(old(time), time)
      ensures Concludes(old(Enters(sflags, at)))
    {
      hide S.Ok, Wrap, Total, WindowField, Emitted, Delivered, FinCount, SentSince, Since, Within, Buffers, Receives,
        Bounded, Timer, Recovering, History;
      ghost var s, n, z, field := snd, net, size, WindowField(rx.rcvWnd, rx.rwndScale);
      at := Emit(sflags, g);
      SentParts(s, snd, n, net, z, size, tx.sndWnd, fast.dupAcks, false, rcv.nxt, field);
      if state != Closed {
        RecoveringKept(fast, z, size, s, snd, recoverPos, strained);
      }
      CoupledSend(state, tcb.supportFinAck, s, snd, old(time).rtoBase, time.rtoBase);
    }

    // Connection state --------------------------------------------------------

    method SetState(next: TcpState)
      requires History(history) && history[|history| - 1] == state
      requires next == state || Forward(state, next)
      modifies this`state, this`history
      ensures state == next && History(history) && history[|history| - 1] == state
      ensures old(history) <= history
    {
      if next == state {
        return;
      }
      state := next;
      history := history + [next];
    }

    /** Queues a FIN or an RST and sends everything that waits, whatever the
        windows say. */
    method Flush(flags: Flags, ghost g: Start)
      requires Sound() && Since(g) && Within(g) && Loose(tcb.supportFinAck, snd)
      requires flags == FLAG_RST || (flags == FLAG_FIN && !snd.finAcked)
      modifies this`tx, this`snd, this`size, this`net, this`act, this`time, sbuf, sbuf.buffer
      ensures Sound() && Since(g) && sbuf.buffer == old(sbuf.buffer)
      ensures Flushed(old(snd), snd, old(net), net, flags) && Searched(old(size), size)
      ensures tx == old(tx).(slist := tx.slist, unsent := tx.unsent, sndNxt := tx.sndNxt)
      ensures TimerKept(old(time), time)
    {
      hide FlushedInOrder, S.Ok, Wrap, PseudoTcpFifo.Valid, Total, WindowField, Emitted, R.Safe, FinCount, Listed,
        History, S.Enqueue,
        Scaled, NoReset, SentSince, Bounded, Flushed, Receives;
      ghost var n, s, z, field := net, snd, size, WindowField(rx.rcvWnd, rx.rwndScale);
      QueuedMark(snd, flags);
      EnqueuedKept(snd, [], flags);
      var w := Queue([], flags);
      assert snd == S.Enqueue(s, [], flags);
      EmittedLater(g, net, s.stream, snd.stream, s.nxt, snd.nxt, rcv.nxt, rcv.nxt, rx.rwndScale);
      ghost var q := snd;
      ghost var at := Emit(if flags.fin then SfFin else SfRst, g);
      FlushEnds(s, q, snd, n, net, z, size, tx.sndWnd, fast.dupAcks, rcv.nxt, field, flags);
    }

    lemma GivenSoFar(g: Start)
      requires Since(g)
      ensures g.net.out <= net.out && g.net.failures <= net.failures
    {
    }

    /** Closes the socket; a local reason is told to the peer. */
    method Closedown(local: bool, ghost g: Start)
      requires Sound() && Since(g) && Within(g) && Loose(tcb.supportFinAck, snd)
      modifies this`state, this`tcb, this`history, this`tx, this`snd, this`size, this`net, this`act, this`time, sbuf,
        sbuf.buffer
      ensures Valid() && Since(g) && state == Closed && sbuf.buffer == old(sbuf.buffer)
      ensures tcb == old(tcb).(shutdown := if local && !tcb.supportFinAck then SdForceful else old(tcb.shutdown))
      ensures if local && tcb.supportFinAck then Flushed(old(snd), snd, old(net), net, FLAG_RST)
              else snd == old(snd) && net == old(net)
      ensures local && tcb.supportFinAck ==> TellsReset(g.net, net)
      ensures tx == old(tx).(slist := tx.slist, unsent := tx.unsent, sndNxt := tx.sndNxt)
      ensures old(history) <= history
    {
      hide Buffers, Sends, Receives, Timer, Bounded, R.Safe, Recovering, Flushed, Since, Within, History, FinCount,
        Coupled, TellsReset;
      GivenSoFar(g);
      ghost var s, n := snd, net;
      if local && tcb.supportFinAck {
        Flush(FLAG_RST, g);
        ResetTold(g.net, s, snd, n, net);
        LooseFlushed(tcb.supportFinAck, old(snd), snd, old(net), net, FLAG_RST);
      } else if local {
        tcb := tcb.(shutdown := SdForceful);
      }
      Unwind();
      LooseIsEnoughWhenClosed(state, tcb.supportFinAck, snd, time.rtoBase);
    }

    /** The way to CLOSED from any state. */
    method Unwind()
      requires History(history) && history[|history| - 1] == state
      modifies this`state, this`history
      ensures state == Closed && History(history) && history[|history| - 1] == Closed && old(history) <= history
    {
      hide History, Forward;
      Downhill();
      match state {
      case Listen | SynSent | LastAck | TimeWait | Closed =>
      case SynReceived | Established =>
        SetState(FinWait1);
        SetState(FinWait2);
        SetState(TimeWait);
      case FinWait1 =>
        SetState(FinWait2);
        SetState(TimeWait);
      case FinWait2 | Closing =>
        SetState(TimeWait);
      case CloseWait =>
        SetState(LastAck);
      }
      SetState(Closed);
    }

    /** The place of the advised MTU in the table, and the sizes that follow. */
    method AdjustMtu()
      requires Core() && state != Closed
      modifies this`size, this`fast
      ensures Core() && Adjusted(old(size), size, old(fast), fast) && size.cwnd > 0
      ensures PACKET_MAXIMUMS[size.msslevel] <= size.mtuAdvise
      ensures forall i :: 0 <= i < size.msslevel ==> PACKET_MAXIMUMS[i] > size.mtuAdvise
    {
      hide Buffers, Sends, Receives, Timer, R.Safe, History, Wrap;
      var level := FindLevel(size.mtuAdvise);
      size := size.(msslevel := level, mss := size.mtuAdvise - PACKET_OVERHEAD);
      fast := fast.(ssthresh := Max(fast.ssthresh, 2 * size.mss));
      size := size.(cwnd := Max(size.cwnd, size.mss));
    }

    static method FindLevel(mtu: nat) returns (level: nat)
      requires MIN_PACKET <= mtu
      ensures level <= 9 && PACKET_MAXIMUMS[level] <= mtu
      ensures forall i :: 0 <= i < level ==> PACKET_MAXIMUMS[i] > mtu
    {
      level := 0;
      while PACKET_MAXIMUMS[level + 1] > 0
        invariant level <= 9
        invariant forall i :: 0 <= i < level ==> PACKET_MAXIMUMS[i] > mtu
        decreases 9 - level
      {
        if PACKET_MAXIMUMS[level] <= mtu {
          break;
        }
        level := level + 1;
      }
    }

    method SetStateEstablished()
      requires Valid() && state in {SynSent, SynReceived}
      modifies this`state, this`history, this`size, this`fast
      ensures Valid() && state == Established && old(history) <= history
      ensures Adjusted(old(size), size, old(fast), fast) && size.cwnd > 0
    {
      hide Core, Coupled, Forward;
      Uphill();
      Establish();
      AdjustMtu();
    }

    /** The change of state itself, which the coupling does not mind. */
    method Establish()
      requires Valid() && state in {SynSent, SynReceived}
      modifies this`state, this`history
      ensures Valid() && state == Established && old(history) <= history
    {
      hide Core, Forward, FinCount;
      Uphill();
      ChangeState(Established);
    }

    method AdviseMtu(mtu: nat)
      requires Valid() && MIN_PACKET <= mtu <= MAX_PACKET
      modifies this`size
      ensures Valid() && size == old(size).(mtuAdvise := mtu) && View() == old(View())
    {
      hide Buffers, Sends, Receives, Timer, R.Safe, History, Coupled;
      size := size.(mtuAdvise := mtu);
    }

    method NotifyMtu(mtu: nat)
      requires Valid() && MIN_PACKET <= mtu <= MAX_PACKET
      modifies this`size, this`fast
      ensures Valid() && size.mtuAdvise == mtu
      ensures state == Established ==> size.mss == mtu - PACKET_OVERHEAD
      ensures state != Established ==> size == old(size).(mtuAdvise := mtu) && fast == old(fast)
      ensures View() == old(View())
    {
      hide Core, Coupled;
      AdviseMtu(mtu);
      if state == Established {
        AdjustMtu();
      }
    }

    /** Replaces the receive buffer and chooses the window scale for it.  `aborted` is
        the assertion that what is held fits. */
    method ResizeReceiveBuffer(newSize: nat) returns (aborted: bool)
      requires Buffers() && Receives() && rcv.pieces == [] && 0 < newSize < 0x4000_0000
      requires newSize != rx.rbufLen ==> rcv.held != Rounded(newSize)
      modifies this`rx, this`rcv, this`fast, this`strained, rbuf
      ensures Buffers() && Receives()
      ensures newSize == old(rx.rbufLen) ==>
                rx == old(rx) && rcv == old(rcv) && fast == old(fast) && strained == old(strained)
      ensures aborted <==> newSize != old(rx.rbufLen) && old(rcv.held) > Rounded(newSize)
      ensures newSize != old(rx.rbufLen) && !aborted ==>
                && rx.rbufLen == Rounded(newSize)
                && Resized(old(rcv), rcv, rx.rbufLen) && rx.rbufLen <= newSize < rx.rbufLen + Pow2(rx.rwndScale)
                && (newSize <= 0xFFFF ==> rx.rwndScale == 0 && rx.rbufLen == newSize)
                && rx == old(rx).(rbufLen := rx.rbufLen, rwndScale := rx.rwndScale, rcvWnd := rx.rcvWnd)
                && fast == old(fast).(ssthresh := rx.rbufLen)
                && (strained <==> old(strained) || fast.dupAcks >= 3) && fresh(rbuf.buffer)
    {
      hide Pow2, Wrap, PseudoTcpFifo.Valid, Listed, Scaled, Rounded;
      aborted := false;
      if newSize == rx.rbufLen {
        return;
      }
      var scale, shifted := ChooseScale(newSize);
      ScaledBy(shifted, scale);
      ScaleIsSmall(shifted, scale);
      var capacity := shifted * Pow2(scale);
      assert newSize < capacity + Pow2(scale);
      var ok := rbuf.SetCapacity(capacity);
      if !ok {
        return true;
      }
      fast := fast.(ssthresh := capacity);
      strained := strained || fast.dupAcks >= 3;
      rx := rx.(rbufLen := capacity, rwndScale := scale, rcvWnd := capacity - rbuf.dataLength);
      rcv := rcv.(cells := rbuf.cells, wnd := rx.rcvWnd);
      ScaledIncoming(rx, shifted);
    }

    /** The property `rcv-buf`. */
    method SetReceiveBuffer(newSize: nat) returns (aborted: bool)
      requires Valid() && state == Listen && 0 < newSize < 0x4000_0000 && rcv.pieces == []
      requires newSize == rx.rbufLen || rcv.held == 0 || rcv.held != Rounded(newSize)
      modifies this`rx, this`rcv, this`fast, this`strained, rbuf
      ensures aborted <==> newSize != old(rx.rbufLen) && old(rcv.held) > Rounded(newSize)
      ensures !aborted ==> Valid() && rcv == old(rcv).(cells := rcv.cells, wnd := rcv.wnd)
      ensures newSize == old(rx.rbufLen) ==> rcv == old(rcv) && rx == old(rx)
      ensures newSize != old(rx.rbufLen) && !aborted ==>
                Resized(old(rcv), rcv, Rounded(newSize)) && rx.rbufLen == Rounded(newSize) <= newSize
    {
      hide S.Ok, R.Safe, Wrap, PseudoTcpFifo.Valid, Coupled, History, Listed, Pow2, Timer, Queues, Scaled, Rounded;
      RoundedPositive(newSize);
      HeldFits();
      aborted := ResizeReceiveBuffer(newSize);
      if !aborted {
        R.NothingReceived(rcv);
      }
    }

    /** The property `snd-buf`. */
    method SetSendBuffer(newSize: nat)
      requires Valid() && state == Listen && 7 <= newSize <= MAX_UNACKED
      modifies this`tx, sbuf
      ensures Valid() && |sbuf.cells| == newSize && tx == old(tx).(sbufLen := newSize)
    {
      hide S.Ok, R.Safe, Wrap, PseudoTcpFifo.Valid, Bounded, History, Listed, Recovering, Timer, Scaled;
      tx := tx.(sbufLen := newSize);
      var ok := sbuf.SetCapacity(newSize);
    }

    method QueueConnectMessage()
      requires Buffers() && Sends() && S.Untouched(snd)
      modifies this`tx, this`snd, sbuf, sbuf.buffer
      ensures Buffers() && Sends() && sbuf.buffer == old(sbuf.buffer)
      ensures snd == S.Enqueue(old(snd), ConnectMessage(tcb.supportWndScale, rx.rwndScale, tcb.supportFinAck), FLAG_CTL)
      ensures tx == old(tx).(slist := tx.slist, unsent := tx.unsent, sndWnd := tx.sndWnd)
      ensures tx.sndWnd == |ConnectMessage(tcb.supportWndScale, rx.rwndScale, tcb.supportFinAck)|
    {
      hide S.Ok, Wrap, PseudoTcpFifo.Valid, S.Enqueue, ConnectMessage;
      var message := ConnectMessage(tcb.supportWndScale, rx.rwndScale, tcb.supportFinAck);
      tx := tx.(sndWnd := |message|);
      var w := Queue(message, FLAG_CTL);
      assert message[..w] == message;
    }

    /** Leaves LISTEN and queues the connect message. */
    method Greet(next: TcpState)
      requires Valid() && state == Listen && next in {SynSent, SynReceived}
      modifies this`state, this`history, this`tx, this`snd, sbuf, sbuf.buffer
      ensures Valid() && state == next && old(history) <= history && sbuf.buffer == old(sbuf.buffer)
      ensures S.Untouched(old(snd))
      ensures snd == S.Enqueue(old(snd), ConnectMessage(tcb.supportWndScale, rx.rwndScale, tcb.supportFinAck), FLAG_CTL)
      ensures tx == old(tx).(slist := tx.slist, unsent := tx.unsent, sndWnd := tx.sndWnd)
      ensures tx.sndWnd == |ConnectMessage(tcb.supportWndScale, rx.rwndScale, tcb.supportFinAck)|
    {
      hide Core, Coupled, S.Enqueue, ConnectMessage, Forward;
      Uphill();
      ListensUntouched(state, tcb.supportFinAck, snd, time.rtoBase);
      ChangeState(next);
      QueueGreeting();
    }

    method QueueGreeting()
      requires Core() && S.Untouched(snd) && state in {SynSent, SynReceived}
      modifies this`tx, this`snd, sbuf, sbuf.buffer
      ensures Valid() && sbuf.buffer == old(sbuf.buffer)
      ensures snd == S.Enqueue(old(snd), ConnectMessage(tcb.supportWndScale, rx.rwndScale, tcb.supportFinAck), FLAG_CTL)
      ensures tx == old(tx).(slist := tx.slist, unsent := tx.unsent, sndWnd := tx.sndWnd)
      ensures tx.sndWnd == |ConnectMessage(tcb.supportWndScale, rx.rwndScale, tcb.supportFinAck)|
    {
      hide S.Ok, Wrap, PseudoTcpFifo.Valid, R.Safe, Bounded, History, Receives, S.Enqueue, ConnectMessage, Coupled,
        Recovering, Queues;
      ghost var s, message := snd, ConnectMessage(tcb.supportWndScale, rx.rwndScale, tcb.supportFinAck);
      QueueConnectMessage();
      EnqueuedKept(s, message, FLAG_CTL);
      ConnectQueued(s, message, state, tcb.supportFinAck, time.rtoBase);
      RecoveringQueued(fast, size, s, snd, recoverPos, strained);
    }

    /** Starts a connection.  The connect message goes out at once if the congestion
        window takes it, or the network refuses it. */
    method Connect() returns (ok: bool, ghost e: Entry)
      requires Valid()
      modifies this`state, this`tcb, this`history, this`tx, this`snd, this`size, this`net, this`act, this`time, sbuf,
        sbuf.buffer
      ensures Valid() && old(history) <= history && Acts(old(View()), View())
      ensures ok <==> old(state) == Listen
      ensures state == if ok then SynSent else old(state)
      ensures tcb == if ok then old(tcb) else old(tcb).(error := EINVAL)
      ensures ok ==> snd.stream == S.Stream(AsParty().Message(), |AsParty().Message()|, false)
      ensures ok ==> Concludes(e) && Launched(old(Flies()), e, AsParty().Message(), net)
      ensures sbuf.buffer == old(sbuf.buffer)
    {
      hide Valid, Acts, ConnectMessage, Concluded, Launched;
      HeldFits();
      Idle();
      e := Stands(SfNone, 0);
      ok := state == Listen;
      if ok {
        e := Open();
      } else {
        SetError(EINVAL, false, false);
      }
    }

    /** The connect message. */
    method Open() returns (ghost e: Entry)
      requires Valid() && state == Listen
      modifies this`state, this`history, this`tx, this`snd, this`size, this`net, this`act, this`time, sbuf, sbuf.buffer
      ensures Valid() && state == SynSent && old(history) <= history && Acts(old(View()), View())
      ensures snd.stream == S.Stream(AsParty().Message(), |AsParty().Message()|, false)
      ensures Concludes(e) && Launched(old(Flies()), e, AsParty().Message(), net)
      ensures sbuf.buffer == old(sbuf.buffer)
    {
      hide Valid, Acts, ConnectMessage, S.Enqueue, Concluded, AfterPause, CongestionWindow, Grows, Launched, Offers;
      HeldFits();
      ghost var a, message := View(), AsParty().Message();
      Greet(SynSent);
      ConnectQueued(a.tx, message, state, tcb.supportFinAck, time.rtoBase);
      FreshQueue(a.tx, message);
      GrowsByMessage(a, View(), message);
      ghost var o := Flies();
      e := Launch(a);
      MessageGoes(old(Flies()), o, e, message, Sits(), act, time, net, rcv.nxt);
    }

    /** Right after the connect message was queued. */
    lemma FreshQueue(s: S.Sender, message: seq<byte>)
      requires Valid() && state == SynSent && S.Untouched(s) && snd == S.Enqueue(s, message, FLAG_CTL)
      ensures sbuf.dataLength == |message| && tx.sndNxt == tx.sndUna == 0 && 180 <= size.mss
    {
      hide S.Ok, R.Safe, Wrap, PseudoTcpFifo.Valid, Coupled, History, Recovering, Receives, Timer, S.Enqueue;
      EnqueuedKept(s, message, FLAG_CTL);
      WrapNear(0);
    }

    /** Sends what was queued last. */
    method Launch(ghost a: End) returns (ghost e: Entry)
      requires Valid() && a.rx.held <= |a.rx.cells| && state != Closed
      requires View() == a.(tx := snd, sent := sent, sndWnd := tx.sndWnd) && snd.nxt == a.tx.nxt
      requires Grows(a, View()) && snd.una == a.tx.una && SameWindow(a, View())
      modifies this`tx, this`snd, this`size, this`net, this`act, this`time
      ensures Valid() && Acts(a, View())
      ensures snd.stream == old(snd.stream) && Concludes(e) && Offers(old(Flies()), e, sbuf.dataLength)
    {
      hide Valid, Acts, Emitted, Concluded, Grows;
      ghost var g := Start(net, snd.una, rcv.nxt, Edge(rcv));
      NothingEmitted(g, snd.stream, snd.nxt, rcv.nxt, rx.rwndScale);
      ghost var v := View();
      ghost var at := Push(SfNone, g);
      e := old(Enters(SfNone, at));
      GrowsLater(a, v, View());
      ActsSending(a, View(), g, net);
    }

    method TakeOptions(swndScale: byte, finAck: bool)
      requires Valid() && !HasSentFin(state) && (Ignoring() && finAck ==> rcv.pieces == [])
      modifies this`tcb, this`tx
      ensures Valid() && tcb == old(tcb).(supportFinAck := finAck) && tx == old(tx).(swndScale := swndScale)
    {
      hide S.Ok, R.Safe, Wrap, PseudoTcpFifo.Valid, Coupled, History, Listed, Scaled, Timer, Bounded, Recovering;
      if Ignoring() && finAck {
        R.NothingReceived(rcv);
      }
      CoupledOptions(state, tcb.supportFinAck, snd, time.rtoBase, finAck);
      tx := tx.(swndScale := swndScale);
      tcb := tcb.(supportFinAck := finAck);
    }

    /** Back to a receive buffer that needs no scaling. */
    method FallBack()
      requires Valid() && rx.rwndScale > 0 && rcv.pieces == [] && rcv.held < DEFAULT_RCV_BUF_SIZE
      modifies this`rx, this`rcv, this`fast, this`strained, rbuf
      ensures Valid() && Resized(old(rcv), rcv, DEFAULT_RCV_BUF_SIZE) && rx.rwndScale == 0 && fresh(rbuf.buffer)
      ensures fast == old(fast).(ssthresh := fast.ssthresh)
    {
      hide S.Ok, R.Safe, Wrap, PseudoTcpFifo.Valid, Coupled, History, Listed, Timer, Pow2;
      var aborted := ResizeReceiveBuffer(DEFAULT_RCV_BUF_SIZE);
      ResizedOk(old(rcv), rcv, DEFAULT_RCV_BUF_SIZE);
    }

    /** Takes over the options of a connect message. */
    method ApplyOptions(message: seq<byte>)
      requires Valid() && message != [] && !HasSentFin(state) && Timely(message, AsParty(), Ignoring(), rcv)
      modifies this`tcb, this`tx, this`rx, this`rcv, this`fast, this`strained, rbuf
      ensures Valid() && AsParty() == old(AsParty()).Hears(message) && fast == old(fast).(ssthresh := fast.ssthresh)
      ensures tcb == old(tcb).(supportFinAck := tcb.supportFinAck) && tx == old(tx).(swndScale := tx.swndScale)
      ensures if rx.rwndScale == old(rx.rwndScale) then rx == old(rx) && rcv == old(rcv)
                && rbuf.buffer == old(rbuf.buffer)
              else Resized(old(rcv), rcv, DEFAULT_RCV_BUF_SIZE) && fresh(rbuf.buffer)
    {
      hide Valid, Resized, Party.Hears;
      var q := HearOptions(AsParty(), message);
      TakeOptions(q.swndScale, q.finAck);
      if q.rwndScale != rx.rwndScale {
        FallBack();
      }
    }

    /** A connect message from the peer. */
    method HandleConnect(message: seq<byte>)
      requires Valid() && message != [] && !HasSentFin(state) && Timely(message, AsParty(), Ignoring(), rcv)
      modifies this`state, this`history, this`tcb, this`tx, this`snd, this`rx, this`rcv, this`fast, this`strained,
        this`size, rbuf, sbuf, sbuf.buffer
      ensures Valid() && AsParty() == old(AsParty()).Hears(message) && sbuf.buffer == old(sbuf.buffer)
      ensures state == Greeted(old(state)) && old(history) <= history
      ensures if rx.rwndScale == old(rx.rwndScale) then rx == old(rx) && rcv == old(rcv)
                && rbuf.buffer == old(rbuf.buffer)
              else Resized(old(rcv), rcv, DEFAULT_RCV_BUF_SIZE) && fresh(rbuf.buffer)
      ensures if old(state) == Listen then S.Untouched(old(snd))
                && snd == S.Enqueue(old(snd), AsParty().Message(), FLAG_CTL) && tx.sndWnd == |AsParty().Message()|
              else snd == old(snd) && tx.sndWnd == old(tx.sndWnd)
      ensures tcb == old(tcb).(supportFinAck := tcb.supportFinAck)
      ensures Undecided(old(state), old(snd), snd, old(fast), fast, old(size.cwnd), size.cwnd)
    {
      hide Valid, Resized, Party.Hears, S.Enqueue, ConnectMessage;
      HeldFits();
      EnqueuedKept(snd, old(AsParty()).Hears(message).Message(), FLAG_CTL);
      ApplyOptions(message);
      if state == Listen {
        Greet(SynReceived);
      } else if state == SynSent {
        SetStateEstablished();
      }
    }

    // Acknowledgements --------------------------------------------------------

    /** Sends the first queued segment again. */
    method Retransmit(now: u32, ghost g: Start, ghost found: bool) returns (ok: bool, aborted: bool)
      requires Sound() && Since(g) && Within(g) && snd.k > 0
                && AckedIn(state, tcb.supportFinAck, snd, time.rtoBase, found) && state != Closed
      modifies this`tx, this`snd, this`size, this`net, this`act, this`time
      ensures Sound() && Since(g) && AckedIn(state, tcb.supportFinAck, snd, time.rtoBase, found)
      ensures Searched(old(size), size) && TimerKept(old(time), time)
      ensures tx == old(tx).(slist := tx.slist, unsent := tx.unsent, sndNxt := tx.sndNxt)
      ensures snd.una == old(snd.una) && snd.nxt == old(snd.nxt) && snd.fins == old(snd.fins)
                && snd.finAcked == old(snd.finAcked)
      ensures snd.stream == old(snd.stream) && snd.kept == old(snd.kept) && snd.k > 0
      ensures ok ==> !aborted && HeadAgain(old(snd), old(Flies()), Flies(), now)
      ensures net.failures == old(net.failures) ==> size == old(size)
      ensures aborted <==> AckedHead(old(snd), XmitLimit())
      ensures ok || aborted || Stuck(old(snd).slist, state, old(net), net)
      ensures old(net.out) <= net.out && (!ok ==> net.out == old(net.out))
    {
      hide S.Ok, Wrap, PseudoTcpFifo.Valid, Total, WindowField, Emitted, R.Safe, FinCount, Listed, History, Scaled,
        Bounded, Searched, S.Transmitted, AckedIn, NoReset;
      ghost var s, m := snd, net;
      HeadCanGo(state, tcb.supportFinAck, snd, time.rtoBase, found);
      ghost var n;
      ok, aborted, n := Transmit(0, now);
      if ok {
        Resent(s, n);
        AckedInResent(state, tcb.supportFinAck, s, n, old(time.rtoBase), time.rtoBase, found);
      }
      DeliveredOne(m, net, snd, rcv.nxt, WindowField(rx.rcvWnd, rx.rwndScale));
      EmittedSince(g, m, net, s, snd, rcv.nxt, rcv.wnd, rx.rwndScale);
    }

    /** Takes in a valuable acknowledgement: the window, the bytes no longer
        needed, and whether it covers the FIN. */
    method TakeAck(seg: S.Segment, now: u32, ghost ackPos: int) returns (nAcked: nat, found: bool)
      requires Sound() && Coupled(state, tcb.supportFinAck, snd, time.rtoBase) && state != Closed
      requires Answers(seg, ackPos, snd) && snd.una < ackPos <= snd.nxt
      modifies this`tx, this`snd, this`time, this`size, sbuf
      ensures Sound() && AckedIn(state, tcb.supportFinAck, snd, time.rtoBase, found)
      ensures found <==> ackPos == old(snd.End()) + 1
      ensures nAcked == ackPos - old(snd.una) - (if found then 1 else 0) <= |old(snd.kept)|
      ensures snd.una == ackPos && snd.nxt == old(snd.nxt) && snd.fins == old(snd.fins) && snd.stream == old(snd.stream)
      ensures snd.kept == old(snd.kept)[nAcked..] && ackPos < old(snd.una) + 0x4000_0000
      ensures |old(snd.kept)| == Total(old(snd.slist)) && snd.slist == DropAcked(old(snd.slist), nAcked)
      ensures !old(snd.finAcked) && snd.finAcked == found && (found ==> nAcked == |old(snd.kept)| && HasSentFin(state))
      ensures tx == old(tx).(slist := tx.slist, sndUna := seg.ack, sndWnd := ScaledWindow(seg.wnd, tx.swndScale))
      ensures time == old(time).(rtoBase := if snd.una == snd.nxt then 0 else now)
      ensures size == old(size).(largest := size.largest) && sbuf.buffer == old(sbuf.buffer)
      ensures snd == Released(old(snd), ackPos)
    {
      hide S.Ok, R.Safe, Wrap, Sub, PseudoTcpFifo.Valid, Coupled, AckedIn, History, Listed, Scaled, Total, DropAcked,
        S.Acknowledged, ScaledWindow, Receives, Bounded, Timer;
      ghost var s, n := snd, ackPos - snd.una;
      AckFits(state, tcb.supportFinAck, snd, time.rtoBase, seg, ackPos);
      WrapInjective(ackPos, snd.nxt);
      nAcked := Sub(seg.ack, tx.sndUna);
      found := nAcked == sbuf.dataLength + 1 && HasSentFin(state);
      if found {
        nAcked := nAcked - 1;
      }
      var rtoBase: u32 := if seg.ack == tx.sndNxt then 0 else now;
      AckedFields(s, n, found);
      AckTaken(state, tcb.supportFinAck, s, S.Acknowledged(s, n, found), time.rtoBase, rtoBase, n);
      AckedQueue(s, n, found);
      CoupledFins(state, tcb.supportFinAck, s, time.rtoBase);
      hide Sound;
      Release(seg, rtoBase, nAcked, found, n);
    }

    /** The window, the bytes no longer needed, and the timer. */
    method Release(seg: S.Segment, rtoBase: u32, nAcked: nat, found: bool, ghost n: nat)
      requires Sound() && |snd.kept| == Total(snd.slist) && seg.ack == Wrap(snd.una + n)
      requires n == nAcked + (if found then 1 else 0) && nAcked <= |snd.kept| && (found ==> nAcked == |snd.kept|)
      requires var t := S.Acknowledged(snd, n, found);
               S.Ok(t) && t.k <= |t.slist| && t.slist[t.k..] == snd.slist[snd.k..] && (rtoBase != 0 ==> t.k > 0)
      modifies this`tx, this`snd, this`time, this`size, sbuf
      ensures Sound() && snd == S.Acknowledged(old(snd), n, found)
      ensures tx == old(tx).(slist := tx.slist, sndUna := seg.ack, sndWnd := ScaledWindow(seg.wnd, tx.swndScale))
      ensures time == old(time).(rtoBase := rtoBase) && size == old(size).(largest := size.largest)
                && sbuf.buffer == old(sbuf.buffer)
    {
      hide S.Ok, R.Safe, Wrap, PseudoTcpFifo.Valid, History, Listed, Scaled, Total, DropAcked, S.Acknowledged,
        ScaledWindow, Receives;
      tx := tx.(sndWnd := ScaledWindow(seg.wnd, tx.swndScale));
      ReleaseBytes(seg.ack, nAcked, found, n);
      time := time.(rtoBase := rtoBase);
    }

    /** Drops acknowledged bytes from the send buffer and the queue. */
    method ReleaseBytes(ack: u32, nAcked: nat, found: bool, ghost n: nat)
      requires sbuf.Valid() && Sends() && |snd.kept| == Total(snd.slist) && ack == Wrap(snd.una + n)
      requires n == nAcked + (if found then 1 else 0) && nAcked <= |snd.kept| && (found ==> nAcked == |snd.kept|)
      requires var t := S.Acknowledged(snd, n, found);
               && S.Ok(t) && t.k <= |t.slist|
               && t.slist[t.k..] == snd.slist[snd.k..]
      modifies this`tx, this`snd, this`size, sbuf
      ensures sbuf.Valid() && Sends() && sbuf.buffer == old(sbuf.buffer)
      ensures snd == S.Acknowledged(old(snd), n, found)
      ensures tx == old(tx).(slist := tx.slist, sndUna := ack) && size == old(size).(largest := size.largest)
    {
      hide S.Ok, Wrap, PseudoTcpFifo.Valid, Total, DropAcked, S.Acknowledged, Rotate, Queues;
      RotateFront(sbuf.cells, nAcked, sbuf.dataLength);
      AckedFields(snd, n, found);
      AckedQueues(tx, snd, n, found, ack);
      sbuf.ConsumeReadData(nAcked);
      var rest, largest := FreeSegments(tx.slist, nAcked, size.largest);
      tx := tx.(slist := rest, sndUna := ack);
      size := size.(largest := largest);
      snd := S.Acknowledged(snd, n, found);
    }

    method SetCwnd(n: nat)
      requires Bounded(size, strained) && (strained || size.mss <= n)
      modifies this`size, this`strained
      ensures Bounded(size, strained) && size == old(size).(cwnd := Wrap(n))
      ensures strained <==> old(strained) || n >= MODULUS
    {
      hide Wrap;
      if n < 2 * MODULUS {
        WrapNear(n);
      }
      strained := strained || n >= MODULUS;
      size := size.(cwnd := Wrap(n));
    }

    /** The congestion window after a valuable acknowledgement.  `ok` is false when
        a segment could not be sent again; `aborted` stands for the assertion that
        it has not been acknowledged, and for a division by an empty window. */
    method GrowWindow(nAcked: nat, now: u32, ghost g: Start, ghost found: bool) returns (ok: bool, aborted: bool)
      requires Sound() && Since(g) && Within(g) && AckedIn(state, tcb.supportFinAck, snd, time.rtoBase, found)
                && state != Closed
      requires Entered(fast, size, snd, recoverPos, strained)
      modifies this`tx, this`snd, this`size, this`net, this`act, this`time, this`fast, this`strained
      ensures Sound() && Since(g) && AckedIn(state, tcb.supportFinAck, snd, time.rtoBase, found)
      ensures ok ==> !aborted && Recovering(fast, size, snd, recoverPos, strained)
      ensures aborted <==> if old(fast.dupAcks) < 3 then old(size.cwnd) == 0
                           else !LargerOrEqual(tx.sndUna, old(fast.recover)) && AckedHead(old(snd), XmitLimit())
      ensures aborted ==> strained || (snd.finAcked && snd.fins >= 2 && old(fast.dupAcks) >= 3)
      ensures ok ==> Grown(old(Flies()), Flies(), nAcked, tx.sndUna, now)
      ensures !ok && !aborted ==>
                && old(fast.dupAcks) >= 3 && !LargerOrEqual(tx.sndUna, old(fast.recover))
                && Stuck(old(snd).slist, state, old(net), net)
      ensures tx == old(tx).(slist := tx.slist, unsent := tx.unsent, sndNxt := tx.sndNxt)
      ensures snd.una == old(snd.una) && snd.nxt == old(snd.nxt) && snd.stream == old(snd.stream)
                && snd.kept == old(snd.kept) && snd.fins == old(snd.fins)
    {
      hide S.Ok, R.Safe, Wrap, PseudoTcpFifo.Valid, AckedIn, History, Listed, Scaled, Emitted, Recovering, Since,
        Within, Receives, Opened, Entered, LargerOrEqual,
        OfHead, Searched, Deflated, DeflatedAfterSearch, AckedHead;
      FinAckedIn(state, tcb.supportFinAck, snd, time.rtoBase, found);
      InFlightBound(snd);
      assert tx.sndUna == Wrap(snd.una);
      hide Sound;
      ok, aborted := true, false;
      if fast.dupAcks >= 3 {
        RecoveryIsOver(fast, size, snd, recoverPos, strained);
        if LargerOrEqual(tx.sndUna, fast.recover) {
          ExitRecovery();
        } else {
          ok, aborted := PartialAck(nAcked, now, g, found);
        }
      } else {
        ok := OpenWindow();
        aborted := !ok;
      }
    }

    /** A partial acknowledgement: the next hole is filled. */
    method PartialAck(nAcked: nat, now: u32, ghost g: Start, ghost found: bool) returns (ok: bool, aborted: bool)
      requires Sound() && Since(g) && Within(g) && AckedIn(state, tcb.supportFinAck, snd, time.rtoBase, found)
                && state != Closed
      requires Recovering(fast, size, snd, recoverPos, strained) && snd.una < snd.nxt
      modifies this`tx, this`snd, this`size, this`net, this`act, this`time, this`strained
      ensures Sound() && Since(g) && AckedIn(state, tcb.supportFinAck, snd, time.rtoBase, found)
      ensures ok ==> !aborted && Recovering(fast, size, snd, recoverPos, strained)
      ensures aborted <==> AckedHead(old(snd), XmitLimit())
      ensures ok || aborted || Stuck(old(snd).slist, state, old(net), net)
      ensures aborted ==> snd.finAcked && snd.fins >= 2
      ensures ok ==> HeadAgain(old(snd), old(Flies()), Flies(), now) && TimerKept(old(time), time)
      ensures ok ==> DeflatedAfterSearch(old(size), size, nAcked)
      ensures ok && net.failures == old(net.failures) ==> size == old(size).(cwnd := Deflated(old(size), nAcked))
      ensures tx == old(tx).(slist := tx.slist, unsent := tx.unsent, sndNxt := tx.sndNxt)
      ensures snd.una == old(snd.una) && snd.nxt == old(snd.nxt) && snd.stream == old(snd.stream)
                && snd.kept == old(snd.kept) && snd.fins == old(snd.fins)
    {
      hide S.Ok, R.Safe, Wrap, PseudoTcpFifo.Valid, History, Listed, Scaled, Emitted, Recovering, Searched, Since,
        Within, Receives, OfHead, AckedIn, Deflated;
      FinAckedIn(state, tcb.supportFinAck, snd, time.rtoBase, found);
      InFlightBound(snd);
      ghost var z, s := size, snd;
      ok, aborted := Retransmit(now, g, found);
      RecoveringKept(fast, z, size, s, snd, recoverPos, strained);
      if ok {
        Deflate(nAcked);
      }
    }

    /** The congestion window less what was acknowledged, and a segment more. */
    method Deflate(nAcked: nat)
      requires Sound() && Recovering(fast, size, snd, recoverPos, strained)
      modifies this`size, this`strained
      ensures Sound() && Recovering(fast, size, snd, recoverPos, strained)
      ensures size == old(size).(cwnd := Deflated(old(size), nAcked))
    {
      hide Buffers, Sends, Receives, Timer, R.Safe, History, Wrap, Recovering;
      SetCwnd(size.cwnd + size.mss - Min(nAcked, size.cwnd));
      RecoveringCwnd(fast, old(size), snd, recoverPos, old(strained), size.cwnd, strained);
    }

    /** The end of fast recovery. */
    method ExitRecovery()
      requires Sound() && fast.dupAcks >= 3 && (strained || 2 * size.mss <= fast.ssthresh)
                && 0 <= snd.nxt - snd.una < 0x4000_0000
      modifies this`size, this`fast
      ensures Sound() && Recovering(fast, size, snd, recoverPos, strained) && fast == old(fast).(dupAcks := 0)
      ensures size == old(size).(cwnd := Min(fast.ssthresh, snd.nxt - snd.una + size.mss))
    {
      hide S.Ok, R.Safe, Wrap, Sub, PseudoTcpFifo.Valid, History, Listed, Scaled, Receives;
      WrapInjective(snd.nxt, snd.una);
      var nInFlight: int := Sub(tx.sndNxt, tx.sndUna);
      size := size.(cwnd := Min(fast.ssthresh, nInFlight + size.mss));
      fast := fast.(dupAcks := 0);
    }

    /** Slow start and congestion avoidance. */
    method OpenWindow() returns (ok: bool)
      requires Sound() && fast.dupAcks < 3
      modifies this`size, this`fast, this`strained
      ensures Sound() && Recovering(fast, size, snd, recoverPos, strained) && fast == old(fast).(dupAcks := 0)
      ensures ok <==> old(size.cwnd) > 0
      ensures !ok ==> strained
      ensures ok ==> size == old(size).(cwnd := Wrap(Opened(old(size), fast.ssthresh)))
    {
      hide S.Ok, R.Safe, Wrap, PseudoTcpFifo.Valid, History, Listed, Scaled, Opened;
      fast := fast.(dupAcks := 0);
      if size.cwnd == 0 {
        return false;
      }
      if !strained {
        OpenedGrows(size, fast.ssthresh);
      }
      SetCwnd(Opened(size, fast.ssthresh));
      return true;
    }

    /** Enters fast recovery: the first segment again, then half the window. */
    method EnterRecovery(now: u32, ghost g: Start) returns (ok: bool)
      requires Sound() && Since(g) && Within(g) && Coupled(state, tcb.supportFinAck, snd, time.rtoBase)
                && state != Closed
      requires snd.una < snd.nxt
      modifies this`tx, this`snd, this`size, this`net, this`act, this`time, this`fast, this`recoverPos, this`strained
      ensures Sound() && Since(g) && Coupled(state, tcb.supportFinAck, snd, time.rtoBase)
      ensures ok ==> Recovering(fast, size, snd, recoverPos, strained)
      ensures ok ==> HeadAgain(old(snd), old(Flies()), Flies(), now)
      ensures ok || Stuck(old(snd).slist, state, old(net), net)
      ensures ok ==> fast == old(fast).(ssthresh := fast.ssthresh, recover := tx.sndNxt)
      ensures ok ==>
                fast.ssthresh == Max((snd.nxt - snd.una) / 2, 2 * size.mss) && size.cwnd == fast.ssthresh + 3 * size.mss
      ensures tx == old(tx).(slist := tx.slist, unsent := tx.unsent, sndNxt := tx.sndNxt)
      ensures snd.una == old(snd.una) && snd.nxt == old(snd.nxt) && snd.stream == old(snd.stream)
                && snd.kept == old(snd.kept) && snd.finAcked == old(snd.finAcked)
      ensures TimerKept(old(time), time)
    {
      hide S.Ok, R.Safe, Wrap, Sub, PseudoTcpFifo.Valid, Coupled, AckedIn, History, Listed, Scaled, Emitted,
        Recovering, Since, Within, Receives, OfHead, Searched, Bounded;
      CoupledFins(state, tcb.supportFinAck, snd, time.rtoBase);
      InFlightBound(snd);
      AckedInIsCoupled(state, tcb.supportFinAck, snd, time.rtoBase);
      assert snd.k > 0;
      hide Sound;
      var aborted;
      ok, aborted := Retransmit(now, g, false);
      AckedInIsCoupled(state, tcb.supportFinAck, snd, time.rtoBase);
      assert !aborted;
      if ok {
        HalveWindow();
      }
    }

    method HalveWindow()
      requires Sound() && 0 <= snd.nxt - snd.una < 0x4000_0000
      modifies this`size, this`fast, this`recoverPos, this`strained
      ensures Sound() && Recovering(fast, size, snd, recoverPos, strained)
      ensures fast == old(fast).(ssthresh := fast.ssthresh, recover := tx.sndNxt)
                && fast.ssthresh == Max((snd.nxt - snd.una) / 2, 2 * size.mss)
      ensures size == old(size).(cwnd := size.cwnd) && size.cwnd == fast.ssthresh + 3 * size.mss
    {
      hide S.Ok, R.Safe, Wrap, Sub, PseudoTcpFifo.Valid, History, Listed, Scaled, Receives;
      WrapInjective(snd.nxt, snd.una);
      var nInFlight: int := Sub(tx.sndNxt, tx.sndUna);
      fast := fast.(recover := tx.sndNxt, ssthresh := Max(nInFlight / 2, 2 * size.mss));
      recoverPos := snd.nxt;
      size := size.(cwnd := fast.ssthresh + 3 * size.mss);
    }

    /** Counts a duplicate acknowledgement; the third enters recovery. */
    method CountDuplicate(now: u32, ghost g: Start) returns (ok: bool)
      requires Core() && Since(g) && Within(g) && Coupled(state, tcb.supportFinAck, snd, time.rtoBase)
                && state != Closed
      requires snd.una < snd.nxt
      modifies this`tx, this`snd, this`size, this`net, this`act, this`time, this`fast, this`recoverPos, this`strained
      ensures Sound() && Since(g) && Coupled(state, tcb.supportFinAck, snd, time.rtoBase)
      ensures ok ==> Recovering(fast, size, snd, recoverPos, strained)
      ensures ok ==> Counted(old(fast), fast, old(size), size, snd.nxt - snd.una, tx.sndNxt)
      ensures ok || Stuck(old(snd).slist, state, old(net), net)
      ensures if old(fast.dupAcks) == 2 then ok ==> HeadAgain(old(snd), old(Flies()), Flies(), now)
              else ok && net == old(net) && snd == old(snd) && act == old(act) && time == old(time)
      ensures tx == old(tx).(slist := tx.slist, unsent := tx.unsent, sndNxt := tx.sndNxt)
      ensures snd.una == old(snd.una) && snd.nxt == old(snd.nxt) && snd.stream == old(snd.stream)
                && snd.kept == old(snd.kept) && snd.finAcked == old(snd.finAcked)
      ensures TimerKept(old(time), time)
    {
      hide S.Ok, R.Safe, Wrap, PseudoTcpFifo.Valid, Coupled, History, Listed, Scaled, Since, Within, Receives, Sends,
        OfHead;
      ok := true;
      fast := fast.(dupAcks := (fast.dupAcks + 1) % 256);
      if fast.dupAcks == 3 {
        ok := EnterRecovery(now, g);
      } else if fast.dupAcks > 3 {
        SetCwnd(size.cwnd + size.mss);
      }
    }

    method ClearDuplicates()
      requires Sound()
      modifies this`fast
      ensures Sound() && Recovering(fast, size, snd, recoverPos, strained) && fast == old(fast).(dupAcks := 0)
    {
      hide S.Ok, R.Safe, PseudoTcpFifo.Valid, History, Listed, Scaled, Receives, Sends;
      fast := fast.(dupAcks := 0);
    }

    /** The peer's window. */
    method TakeWindow(field: nat)
      requires Valid()
      modifies this`tx
      ensures Valid() && tx == old(tx).(sndWnd := ScaledWindow(field, tx.swndScale))
    {
      hide S.Ok, R.Safe, PseudoTcpFifo.Valid, History, Listed, Scaled, Receives, Coupled, Recovering, ScaledWindow;
      tx := tx.(sndWnd := ScaledWindow(field, tx.swndScale));
    }

    /** A duplicate acknowledgement. */
    method TakeDuplicate(seg: S.Segment, now: u32, ghost g: Start) returns (ok: bool)
      requires Valid() && Since(g) && Within(g) && state != Closed
      modifies this`tx, this`snd, this`size, this`net, this`act, this`time, this`fast, this`recoverPos, this`strained
      ensures Sound() && Since(g) && Coupled(state, tcb.supportFinAck, snd, time.rtoBase)
      ensures ok ==> Valid()
      ensures seg.data != [] || snd.una == snd.nxt || old(fast.dupAcks) != 2 ==> ok
      ensures ok || Stuck(old(snd).slist, state, old(net), net)
      ensures ok ==> Duplicated(old(Flies()), Flies(), seg.data != [], now)
      ensures tx == old(tx).(slist := tx.slist, unsent := tx.unsent, sndNxt := tx.sndNxt,
                                sndWnd := ScaledWindow(seg.wnd, tx.swndScale))
      ensures snd.una == old(snd.una) && snd.nxt == old(snd.nxt) && snd.stream == old(snd.stream)
                && snd.kept == old(snd.kept) && snd.finAcked == old(snd.finAcked)
      ensures TimerKept(old(time), time)
    {
      hide Sound, Coupled, Recovering, Since, Within, ScaledWindow, OfHead, Counted, Loose, Wrap;
      FlightFacts();
      ok := true;
      TakeWindow(seg.wnd);
      if seg.data != [] {
        return;
      }
      if tx.sndUna != tx.sndNxt {
        ok := CountDuplicate(now, g);
      } else {
        ClearDuplicates();
      }
    }

    /** The round-trip time an acknowledgement shows. */
    method MeasureRtt(tsecr: u32, now: u32) returns (ok: bool)
      requires Valid()
      modifies this`time
      ensures Valid() && time == old(time).(rxRttvar := time.rxRttvar, rxSrtt := time.rxSrtt, rxRto := time.rxRto)
      ensures ok <==> tsecr == 0 || TimeDiff(now, tsecr) >= 0
      ensures ok && tsecr != 0 ==> time == Measured(old(time), TimeDiff(now, tsecr))
      ensures !ok || tsecr == 0 ==> time == old(time)
    {
      hide S.Ok, R.Safe, PseudoTcpFifo.Valid, History, Listed, Scaled, Receives, Sends, Coupled, Recovering, Measured,
        TimeDiff;
      if tsecr == 0 {
        return true;
      }
      MeasurableTime(now, tsecr);
      var rtt := TimeDiff(now, tsecr);
      ok := rtt >= 0;
      if ok {
        time := Measured(time, rtt);
      }
    }

    /** The acknowledgement number of a segment. */
    method HandleAck(seg: S.Segment, now: u32, ghost ackPos: int, ghost g: Start) returns (r: Outcome)
      requires Valid() && Since(g) && Within(g) && state != Closed && Answers(seg, ackPos, snd)
      modifies this`tx, this`snd, this`size, this`net, this`act, this`time, this`fast, this`recoverPos, this`strained,
        sbuf
      ensures r.Go? ==> Core() && AckedIn(state, tcb.supportFinAck, snd, time.rtoBase, r.found)
      ensures r.Rejected? <==> old(snd.una) < ackPos <= old(snd.nxt) && !Timed(seg, now)
      ensures r.Rejected? ==> Valid()
      ensures r.Broken? ==> Sound() && Loose(tcb.supportFinAck, snd)
      ensures r.Broken? ==> GivesUp(state, old(snd), old(fast), seg, ackPos, old(net), net)
      ensures r.Aborted? <==> Fatal(old(snd), old(fast), old(size.cwnd), seg, ackPos, now)
      ensures r.Aborted? ==> strained || (old(state) == LastAck && old(snd.fins) >= 2 && old(fast.dupAcks) >= 3)
      ensures Since(g) && sbuf.buffer == old(sbuf.buffer)
      ensures r.Go? ==> (r.found <==> CoversFin(old(snd), ackPos))
      ensures !r.Aborted? ==> Heard(old(snd), snd, old(tx), tx, ackPos, seg.wnd, !r.Rejected?)
      ensures r.Go? ==> AckEffect(old(Flies()), Flies(), seg, ackPos, now)
    {
      hide Sound, Coupled, AckedIn, Recovering, Larger, LargerOrEqual, Loose, ScaledWindow, Since, Within, Answers,
        Wrap, FinHeadLeft, Timed, OfHead, Counted;
      FlightFacts();
      AnswerIs(seg, ackPos, snd);
      AckedInIsCoupled(state, tcb.supportFinAck, snd, time.rtoBase);
      var valuable := Larger(seg.ack, tx.sndUna) && SmallerOrEqual(seg.ack, tx.sndNxt);
      var duplicate := seg.ack == tx.sndUna;
      assert (valuable <==> snd.una < ackPos <= snd.nxt) && (duplicate <==> ackPos == snd.una);
      if valuable {
        r := HandleValuable(seg, now, ackPos, g);
      } else if duplicate {
        var ok := TakeDuplicate(seg, now, g);
        CoupledFins(state, tcb.supportFinAck, snd, time.rtoBase);
        AckedInIsCoupled(state, tcb.supportFinAck, snd, time.rtoBase);
        r := if ok then Go(false) else Broken;
      } else {
        r := Go(false);
      }
    }

    /** A valuable acknowledgement. */
    method HandleValuable(seg: S.Segment, now: u32, ghost ackPos: int, ghost g: Start) returns (r: Outcome)
      requires Valid() && Since(g) && Within(g) && state != Closed && Answers(seg, ackPos, snd)
                && snd.una < ackPos <= snd.nxt
      modifies this`tx, this`snd, this`size, this`net, this`act, this`time, this`fast, this`strained, sbuf
      ensures r.Go? ==> Core() && AckedIn(state, tcb.supportFinAck, snd, time.rtoBase, r.found)
      ensures r.Rejected? <==> !Timed(seg, now)
      ensures r.Rejected? ==> Valid()
      ensures r.Broken? ==> Sound() && Loose(tcb.supportFinAck, snd)
      ensures r.Broken? ==> GivesUp(state, old(snd), old(fast), seg, ackPos, old(net), net)
      ensures r.Aborted? <==> Fatal(old(snd), old(fast), old(size.cwnd), seg, ackPos, now)
      ensures r.Aborted? ==> strained || (old(state) == LastAck && old(snd.fins) >= 2 && old(fast.dupAcks) >= 3)
      ensures Since(g) && sbuf.buffer == old(sbuf.buffer)
      ensures r.Go? ==> (r.found <==> ackPos == old(snd.End()) + 1)
      ensures Heard(old(snd), snd, old(tx), tx, ackPos, seg.wnd, !r.Rejected?)
      ensures r.Go? ==> AckEffect(old(Flies()), Flies(), seg, ackPos, now)
    {
      hide Valid, Sound, AckedIn, Recovering, Entered, Loose, Within, Since, Answers, Settles, Fatal, AckEffect,
        Heard, AckedHead, FinHeadLeft, LargerOrEqual, Grown, CoversFin, Timed;
      ghost var a := Flies();
      var ok, nAcked, found := TakeValuable(seg, now, ackPos, g);
      if !ok {
        SettlesNot(a, seg, ackPos, now);
        return Rejected;
      }
      ghost var m := Flies();
      var aborted;
      ok, aborted := GrowWindow(nAcked, now, g, found);
      SettlesEnds(a, m, Flies(), seg, ackPos, nAcked, now, ok, aborted, found, XmitLimit(), state);
      AckedInIsLoose(state, tcb.supportFinAck, snd, time.rtoBase, found);
      OnlyLastAckRepeats(state, tcb.supportFinAck, snd, time.rtoBase, found);
      r := if aborted then Aborted else if !ok then Broken else Go(found);
    }

    /** The acknowledgement itself: the round-trip time, then the bytes. */
    method TakeValuable(seg: S.Segment, now: u32, ghost ackPos: int, ghost g: Start)
      returns (ok: bool, nAcked: nat, found: bool)
      requires Valid() && Since(g) && Within(g) && state != Closed && Answers(seg, ackPos, snd)
                && snd.una < ackPos <= snd.nxt
      modifies this`tx, this`snd, this`size, this`time, sbuf
      ensures Since(g) && Within(g) && sbuf.buffer == old(sbuf.buffer)
      ensures ok <==> Timed(seg, now)
      ensures !ok ==> Valid() && Flies() == old(Flies())
      ensures ok ==> Sound() && AckedIn(state, tcb.supportFinAck, snd, time.rtoBase, found)
      ensures ok ==> Entered(fast, size, snd, recoverPos, strained) && (found <==> CoversFin(old(snd), ackPos))
      ensures ok ==> Settles(old(Flies()), Flies(), seg, ackPos, nAcked, now) && snd.fins == old(snd.fins)
      ensures ok ==> (AckedHead(snd, XmitLimit()) <==> FinHeadLeft(old(snd), ackPos))
    {
      hide FinHeadLeft, LargerOrEqual, S.Ok, Wrap, Coupled, AckedIn, Recovering, Entered, Loose, ScaledWindow, Within,
        Emitted, Answers, Measured, Sound, TimeDiff, OfHead, Released, DropAcked, Total, AckedHead;
      nAcked, found := 0, false;
      ok := MeasureRtt(seg.tsecr, now);
      if !ok {
        return;
      }
      ghost var s, z := snd, size;
      nAcked, found := TakeAck(seg, now, ackPos);
      StillEntered(fast, z, s, snd, recoverPos, strained, size.largest);
      AckedHeadIsFin(s, snd, state, ackPos, nAcked, found);
    }

    // Packets -----------------------------------------------------------------

    /** What the bytes and the FIN of a segment do, and the answer to them. */
    method Absorb(seg: S.Segment, ghost pos: int, ghost g: Start) returns (newData: bool, ghost e: Entry)
      requires Valid() && Since(g) && Within(g) && Orderly(seg, pos, rcv, Ignoring())
      modifies this`rx, this`rcv, rbuf, rbuf.buffer, this`tx, this`snd, this`size, this`net, this`act, this`time
      ensures Valid() && rbuf.buffer == old(rbuf.buffer) && sbuf.buffer == old(sbuf.buffer)
      ensures rcv == R.ReceiveSegment(old(rcv), seg.flags.fin, seg.flags.ctl || Ignoring(), pos, seg.data)
      ensures Since(g.(edge := Max(g.edge, Edge(rcv))))
      ensures rx == old(rx).(rlist := rx.rlist, rcvNxt := rx.rcvNxt, rcvWnd := rx.rcvWnd)
      ensures tx == old(tx).(slist := tx.slist, unsent := tx.unsent, sndNxt := tx.sndNxt)
      ensures Later(old(snd), snd) && snd.nxt <= Max(old(snd.nxt), snd.una + tx.sndWnd)
      ensures Hands(old(Flies()), e, false, fast, time) && Concludes(e)
      ensures sbuf.dataLength == old(sbuf.dataLength)
      ensures CallsFor(e.flags, pos == old(rcv.nxt), seg.data != [], rcv.nxt > pos + |seg.data|, time.ackDelay)
    {
      hide Stamped, Concluded, Hands, S.Ok, R.Safe, Wrap, PseudoTcpFifo.Valid, Coupled, History, Recovering, Emitted,
        Bounded, R.ReceiveSegment, Orderly, Queues, Scaled, Listed;
      OrderlyFirst(seg, pos);
      ghost var r := rcv;
      R.ReceiveSegmentAdvances(rcv, seg.flags.fin, seg.flags.ctl || Ignoring(), pos, seg.data);
      var sflags;
      sflags, newData := AcceptSegment(seg, pos);
      ghost var wide := g.(edge := Max(g.edge, Edge(rcv)));
      SameStream(snd.stream);
      EmittedLater(g, net, snd.stream, snd.stream, snd.nxt, snd.nxt, r.nxt, rcv.nxt, rx.rwndScale);
      EmittedWider(g, net, snd.stream, snd.nxt, rcv.nxt, rx.rwndScale, wide.edge);
      assert Valid();
      hide Valid;
      hide Concluded;
      ghost var at := Push(sflags, wide);
      e := old(Enters(sflags, at));
      HandsFrom(old(Flies()), e, false, old(size), fast, time);
    }

    /** A number is the one wanted exactly if the position is. */
    lemma OrderlyFirst(seg: S.Segment, pos: int)
      requires Receives() && Orderly(seg, pos, rcv, Ignoring())
      ensures seg.sn == rx.rcvNxt <==> pos == rcv.nxt
    {
      hide Wrap, Listed, Scaled;
      WrapInjective(pos, rcv.nxt);
    }

    /** The changes of state that a segment causes after its acknowledgement. */
    method AdvanceState(seg: S.Segment, connect: bool, found: bool) returns (ok: bool)
      requires Core() && AckedIn(state, tcb.supportFinAck, snd, time.rtoBase, found)
      requires state != Closed && (HasSentFin(state) ==> seg.data == [])
      modifies this`state, this`history, this`size, this`fast
      ensures Valid() && old(history) <= history
      ensures ok <==> !(tcb.supportFinAck && seg.flags.fin && seg.data != [])
      ensures !ok ==> state != Closed
      ensures ok ==> state == StateAfter(old(state), connect, tcb.supportFinAck, seg.flags.fin, found)
      ensures if old(state) == SynReceived && !connect then Adjusted(old(size), size, old(fast), fast)
              else size == old(size) && fast == old(fast)
    {
      hide Sound, Recovering, Coupled, AckedIn, Forward, NextState, S.Ok;
      FoundIn(state, tcb.supportFinAck, snd, time.rtoBase, found);
      if state == SynReceived && !connect {
        SetStateEstablished();
        AckedInIsCoupled(state, tcb.supportFinAck, snd, time.rtoBase);
      }
      ok := true;
      if tcb.supportFinAck {
        if seg.flags.fin && seg.data != [] {
          return false;
        }
        NextStateCoupled(state, tcb.supportFinAck, snd, time.rtoBase, seg.flags.fin, found);
        ChangeState(NextState(state, seg.flags.fin, found));
      }
    }

    method ChangeState(next: TcpState)
      requires Core() && (next == state || Forward(state, next)) && state != Closed
      modifies this`state, this`history
      ensures Core() && state == next && old(history) <= history
    {
      hide Buffers, Sends, Receives, Timer, Bounded, R.Safe, History, Recovering, Forward;
      SetState(next);
    }

    /** The application still waits for room in the send buffer, if it did. */
    predicate WaitsOn(before: bool)
      reads this`tcb, this`tx, this`rx, sbuf`dataLength
    {
      tcb.bWriteEnable <==> before && sbuf.dataLength >= Wrap(tx.sbufLen + rx.rbufLen) / 2
    }

    /** Room in the send buffer ends the wait of the application. */
    method NotifyWritable()
      requires Valid()
      modifies this`tcb
      ensures Valid() && tcb == old(tcb).(bWriteEnable := tcb.bWriteEnable) && Ignoring() == old(Ignoring())
      ensures WaitsOn(old(tcb.bWriteEnable))
    {
      hide Buffers, Sends, Receives, Timer, Bounded, R.Safe, History, Recovering, Coupled, Wrap;
      if tcb.bWriteEnable && sbuf.dataLength < Wrap(tx.sbufLen + rx.rbufLen) / 2 {
        tcb := tcb.(bWriteEnable := false);
      }
    }

    method StampTime(seg: S.Segment)
      requires Valid()
      modifies this`time
      ensures Valid() && time == Restamped(old(time), act, seg)
    {
      hide Buffers, Sends, Receives, Bounded, R.Safe, History, Recovering, Coupled, Larger, LargerOrEqual, Add;
      if SmallerOrEqual(seg.sn, act.tsLastAck) && Smaller(act.tsLastAck, Add(seg.sn, |seg.data|)) {
        time := time.(tsRecent := seg.tsval);
      }
    }

    /** A segment of an open connection, after its options. */
    method Digest(seg: S.Segment, connect: bool, now: u32, ghost pos: int, ghost ackPos: int, ghost g: Start)
      returns (ok: bool, aborted: bool, ghost m: Flight, ghost e: Entry)
      requires Valid() && Since(g) && g.edge == Edge(rcv) && state != Closed && (HasSentFin(state) ==> seg.data == [])
      requires Orderly(seg, pos, rcv, Ignoring()) && Answers(seg, ackPos, snd)
      modifies this`state, this`history, this`tcb, this`tx, this`snd, this`rx, this`rcv, this`size, this`net, this`act,
        this`time, this`fast, this`recoverPos, this`strained, rbuf, rbuf.buffer, sbuf, sbuf.buffer
      ensures aborted <==> Fatal(old(snd), old(fast), old(size.cwnd), seg, ackPos, now)
      ensures aborted ==> strained || (old(state) == LastAck && old(snd.fins) >= 2 && old(fast.dupAcks) >= 3)
      ensures !aborted ==> Valid() && Since(g.(edge := Max(g.edge, Edge(rcv)))) && old(history) <= history
      ensures !aborted ==> Digested(old(snd), snd, old(tx), tx, ackPos, seg.wnd, ok)
      ensures ok ==> state == StateAfter(old(state), connect, tcb.supportFinAck, seg.flags.fin,
                                         CoversFin(old(snd), ackPos))
      ensures !ok && !aborted ==> Rejects(state, old(state), tcb.supportFinAck, old(snd), old(fast), seg, ackPos, now,
                                          old(net), net)
      ensures ok ==> !(tcb.supportFinAck && seg.flags.fin && seg.data != [])
      ensures !aborted ==>
                || rcv == old(rcv)
                || rcv == R.ReceiveSegment(old(rcv), seg.flags.fin, seg.flags.ctl || Ignoring(), pos, seg.data)
      ensures ok ==> !aborted
                     && rcv == R.ReceiveSegment(old(rcv), seg.flags.fin, seg.flags.ctl || Ignoring(), pos, seg.data)
      ensures !aborted ==> AsParty() == old(AsParty()) && (old(Ignoring()) ==> Ignoring())
      ensures rbuf.buffer == old(rbuf.buffer) && sbuf.buffer == old(sbuf.buffer)
      ensures ok ==> AckEffect(old(Flies()).(time := Restamped(old(time), old(act), seg)), m, seg, ackPos, now)
      ensures ok ==> Replies(m, e, seg, pos, old(rcv.nxt), old(state) == SynReceived && !connect, old(tcb.bWriteEnable))
      ensures !ok && !aborted && state == Closed && tcb.supportFinAck ==> TellsReset(g.net, net)
    {
      hide Valid, Core, Sound, Fatal, Emitted, AckedIn, Orderly, Answers, Heard, Digested, R.ReceiveSegment,
        Later, CoversFin, StateAfter, AckEffect, Replies, Restamped, TellsReset, Rejects;
      StampTime(seg);
      m, e := Flies(), Stands(SfNone, now);
      ghost var s, otx := snd, tx;
      var r := Heed(seg, now, ackPos, g);
      ok, aborted := false, r.Aborted?;
      if r.Go? {
        ghost var t, mid := snd, tx;
        m := Flies();
        ok, e := Follow(seg, connect, r.found, pos, g);
        if !ok {
          RejectsFin(state, old(state), tcb.supportFinAck, s, old(fast), seg, ackPos, now, old(net), net);
        }
        SentDigested(s, t, snd, otx, mid, tx, ackPos, seg.wnd, ok);
      }
    }

    /** What a segment acknowledges.  A connection on which the head of the queue cannot go
        out again is given up. */
    method Heed(seg: S.Segment, now: u32, ghost ackPos: int, ghost g: Start) returns (r: Outcome)
      requires Valid() && Since(g) && Within(g) && state != Closed && Answers(seg, ackPos, snd)
      modifies this`state, this`history, this`tcb, this`tx, this`snd, this`size, this`net, this`act, this`time,
        this`fast, this`recoverPos, this`strained, sbuf, sbuf.buffer
      ensures r.Aborted? <==> Fatal(old(snd), old(fast), old(size.cwnd), seg, ackPos, now)
      ensures r.Aborted? ==> strained || (old(state) == LastAck && old(snd.fins) >= 2 && old(fast.dupAcks) >= 3)
      ensures r.Go? ==>
                && Core() && AckedIn(state, tcb.supportFinAck, snd, time.rtoBase, r.found)
                && (r.found <==> CoversFin(old(snd), ackPos))
                && state == old(state) && tcb == old(tcb) && history == old(history)
                && Heard(old(snd), snd, old(tx), tx, ackPos, seg.wnd, true)
                && AckEffect(old(Flies()), Flies(), seg, ackPos, now)
      ensures r.Rejected? || r.Broken? ==>
                && Valid() && old(history) <= history
                && Digested(old(snd), snd, old(tx), tx, ackPos, seg.wnd, false)
                && Rejects(state, old(state), tcb.supportFinAck, old(snd), old(fast), seg, ackPos, now, old(net), net)
                && (state == Closed && tcb.supportFinAck ==> TellsReset(g.net, net))
      ensures !r.Aborted? ==> AsParty() == old(AsParty()) && (old(Ignoring()) ==> Ignoring())
      ensures Since(g) && sbuf.buffer == old(sbuf.buffer)
    {
      hide Valid, Core, Sound, Fatal, AckedIn, Answers, Heard, Digested, Flushed, Later, Loose, CoversFin, AckEffect,
        TellsReset, GivesUp, Since, Within, Timed;
      ghost var s, otx := snd, tx;
      r := HandleAck(seg, now, ackPos, g);
      if r.Aborted? {
        return;
      }
      HeardDigested(s, snd, otx, tx, ackPos, seg.wnd, !r.Rejected?);
      if r.Broken? {
        ghost var n := net;
        Drop(s, otx, ackPos, seg.wnd, g);
        GivesUpLater(old(state), s, old(fast), seg, ackPos, old(net), n, net);
      }
    }

    /** The end of such a connection. */
    method Drop(ghost s: S.Sender, ghost x: Outgoing, ghost ackPos: int, ghost field: nat, ghost g: Start)
      requires Sound() && Since(g) && Within(g) && Loose(tcb.supportFinAck, snd)
      requires Heard(s, snd, x, tx, ackPos, field, true)
      modifies this`state, this`tcb, this`history, this`tx, this`snd, this`size, this`net, this`act, this`time, sbuf,
        sbuf.buffer
      ensures Valid() && Since(g) && state == Closed && old(history) <= history && sbuf.buffer == old(sbuf.buffer)
      ensures Digested(s, snd, x, tx, ackPos, field, false) && old(net).failures <= net.failures
      ensures AsParty() == old(AsParty()) && (old(Ignoring()) ==> Ignoring())
      ensures tcb.supportFinAck ==> TellsReset(g.net, net)
    {
      hide Valid, Sound, Heard, Digested, Flushed, Loose, TellsReset, Since, Within;
      ghost var t, y, n := snd, tx, net;
      Closedown(true, g);
      ClosedDigested(s, t, snd, x, y, tx, ackPos, field, n, net);
    }

    /** What follows an acknowledgement that was taken in. */
    method Follow(seg: S.Segment, connect: bool, found: bool, ghost pos: int, ghost g: Start)
      returns (ok: bool, ghost e: Entry)
      requires Core() && AckedIn(state, tcb.supportFinAck, snd, time.rtoBase, found)
      requires Since(g) && Within(g) && g.edge == Edge(rcv) && state != Closed && (HasSentFin(state) ==> seg.data == [])
      requires Orderly(seg, pos, rcv, Ignoring())
      modifies this`state, this`history, this`tcb, this`tx, this`snd, this`rx, this`rcv, this`size, this`net, this`act,
        this`time, this`fast, rbuf, rbuf.buffer
      ensures Valid() && Since(g.(edge := Max(g.edge, Edge(rcv)))) && old(history) <= history
      ensures Later(old(snd), snd) && snd.nxt <= Max(old(snd.nxt), snd.una + tx.sndWnd)
      ensures tx == old(tx).(slist := tx.slist, unsent := tx.unsent, sndNxt := tx.sndNxt) && AsParty() == old(AsParty())
      ensures rcv == old(rcv)
              || rcv == R.ReceiveSegment(old(rcv), seg.flags.fin, seg.flags.ctl || Ignoring(), pos, seg.data)
      ensures Ignoring() == old(Ignoring()) && rbuf.buffer == old(rbuf.buffer) && sbuf.buffer == old(sbuf.buffer)
      ensures ok ==> rcv == R.ReceiveSegment(old(rcv), seg.flags.fin, seg.flags.ctl || Ignoring(), pos, seg.data)
      ensures ok ==> state == StateAfter(old(state), connect, tcb.supportFinAck, seg.flags.fin, found)
      ensures ok <==> !(tcb.supportFinAck && seg.flags.fin && seg.data != [])
      ensures !ok ==> state != Closed
      ensures ok ==> Replies(old(Flies()), e, seg, pos, old(rcv.nxt), old(state) == SynReceived && !connect,
                             old(tcb.bWriteEnable))
    {
      hide Core, Coupled, AckedIn, Emitted, Orderly, R.ReceiveSegment, NextState, Replies, Adjusted, StateAfter;
      e := Stands(SfNone, 0);
      ghost var m := Flies();
      ok := AdvanceState(seg, connect, found);
      if !ok {
        return;
      }
      hide Valid, Ignoring;
      ghost var o := Flies();
      e := Reply(seg, pos, g);
      RepliesOn(m, o, e, seg, pos, old(rcv.nxt), old(state) == SynReceived && !connect, old(tcb.bWriteEnable));
    }

    /** The rest of a segment whose acknowledgement and state have been dealt with. */
    method Reply(seg: S.Segment, ghost pos: int, ghost g: Start) returns (ghost e: Entry)
      requires Valid() && Since(g) && Within(g) && Orderly(seg, pos, rcv, Ignoring())
      modifies this`tcb, this`rx, this`rcv, rbuf, rbuf.buffer, this`tx, this`snd, this`size, this`net, this`act,
        this`time
      ensures Valid() && rbuf.buffer == old(rbuf.buffer) && sbuf.buffer == old(sbuf.buffer)
      ensures rcv == R.ReceiveSegment(old(rcv), seg.flags.fin, seg.flags.ctl || Ignoring(), pos, seg.data)
      ensures Since(g.(edge := Max(g.edge, Edge(rcv)))) && Ignoring() == old(Ignoring())
      ensures AsParty() == old(AsParty()) && tcb.supportFinAck == old(tcb.supportFinAck)
      ensures tx == old(tx).(slist := tx.slist, unsent := tx.unsent, sndNxt := tx.sndNxt)
      ensures Later(old(snd), snd) && snd.nxt <= Max(old(snd.nxt), snd.una + tx.sndWnd)
      ensures Replies(old(Flies()), e, seg, pos, old(rcv.nxt), false, old(tcb.bWriteEnable))
    {
      hide Valid, Since, Within, Orderly, R.ReceiveSegment, Concluded, CallsFor, Hands, Wrap, Later;
      NotifyWritable();
      hide Ignoring;
      var newData;
      newData, e := Absorb(seg, pos, g);
    }

    lemma RepliesOn(m: Flight, o: Flight, e: Entry, seg: S.Segment, pos: int, wanted: int, opens: bool, waited: bool)
      requires Replies(o, e, seg, pos, wanted, false, waited) && o == m.(size := o.size, fast := o.fast)
      requires if opens then Adjusted(m.size, o.size, m.fast, o.fast) else o == m
      ensures Replies(m, e, seg, pos, wanted, opens, waited)
    {
      hide Adjusted, Concludes, CallsFor, WaitsOn, Hands;
      HandsOn(m, o, e, opens, fast, time);
    }

    /** A segment of the conversation.  Returns false when it is not acceptable. */
    method Process(seg: S.Segment, ghost pos: int, ghost ackPos: int)
      returns (ok: bool, aborted: bool, ghost heard: R.Receiver, ghost now: u32, ghost m: Flight, ghost e: Entry)
      requires Valid() && Orderly(seg, pos, rcv, Ignoring()) && Answers(seg, ackPos, snd)
      requires Connects(seg) && !HasSentFin(state) ==> Timely(seg.data, AsParty(), Ignoring(), rcv)
      modifies this`state, this`history, this`tcb, this`tx, this`snd, this`rx, this`rcv, this`size, this`net, this`act,
        this`time, this`fast, this`recoverPos, this`strained, rbuf, rbuf.buffer, sbuf, sbuf.buffer
      ensures aborted <==> Stops(conv, old(state), old(snd), old(fast), old(size.cwnd), seg, ackPos, now)
      ensures aborted ==> strained || (old(state) == LastAck && old(snd.fins) >= 2 && old(fast.dupAcks) >= 3)
      ensures !aborted ==> Valid() && old(history) <= history
      ensures !aborted ==> Hears(old(View()), View(), S.Packet(pos, ackPos, seg), heard)
      ensures ok ==>
                !aborted && heard.held <= |heard.cells|
                && rcv == Received(heard, S.Packet(pos, ackPos, seg), Ignoring())
      ensures ok ==>
                && seg.conv == conv && old(state) != Closed && (HasSentFin(old(state)) ==> seg.data == [])
                && !seg.flags.rst && (seg.flags.ctl ==> Connects(seg))
                && !(tcb.supportFinAck && seg.flags.fin && seg.data != [])
      ensures !ok && !aborted ==>
                || seg.conv != conv || old(state) == Closed || (HasSentFin(old(state)) && seg.data != [])
                || seg.flags.rst || (seg.flags.ctl && !Connects(seg))
                || Rejects(state, if seg.flags.ctl then Greeted(old(state)) else old(state), tcb.supportFinAck,
                           old(snd), old(fast), seg, ackPos, now, old(net), net)
      ensures seg.conv != conv ==> state == old(state) && net == old(net)
      ensures old(state) != Closed && !(HasSentFin(old(state)) && seg.data != []) && !seg.flags.rst ==>
                seg.flags.ctl && !Connects(seg) ==> state == old(state) && net == old(net)
      ensures seg.conv == conv && seg.flags.rst != (HasSentFin(old(state)) && seg.data != []) ==> state == Closed
      ensures ok ==> Answered(old(View()), View(), S.Packet(pos, ackPos, seg))
      ensures ok ==> state == StateAfter(if seg.flags.ctl then Greeted(old(state)) else old(state),
                                         seg.flags.ctl, tcb.supportFinAck,
                                         seg.flags.fin, CoversFin(old(snd), ackPos))
      ensures ok && !seg.flags.ctl ==>
                AckEffect(old(Flies()).(time := Restamped(old(time), old(act), seg), act := Noticed(old(act), now)), m,
                          seg, ackPos, now)
      ensures ok ==> Replies(m, e, seg, pos, old(rcv.nxt), old(state) == SynReceived && !seg.flags.ctl,
                             old(tcb.bWriteEnable))
      ensures seg.conv == conv && !ok && !aborted && state == Closed && tcb.supportFinAck ==>
                if seg.flags.rst then net == old(net) else TellsReset(old(net), net)
      ensures sbuf.buffer == old(sbuf.buffer) && (rbuf.buffer == old(rbuf.buffer) || fresh(rbuf.buffer))
    {
      hide TellsReset, Valid, View, Fatal, Wrap, Orderly, Answers, Timely, Hears, Greeted, StateAfter, CoversFin,
        Answered, Received, AckEffect, Replies, Rejects;
      ok, aborted, heard, now, m, e := false, false, rcv, 0, Flies(), Stands(SfNone, 0);
      ghost var p := S.Packet(pos, ackPos, seg);
      HearsIdle(p);
      if seg.conv != conv {
        return;
      }
      var current := CurrentTime();
      now := current;
      StampTraffic(current);
      if state == Closed || (HasSentFin(state) && seg.data != []) {
        if !seg.flags.rst {
          Refuse(true, p);
        }
        return;
      }
      if seg.flags.rst {
        Refuse(false, p);
        return;
      }
      if seg.flags.ctl && !Connects(seg) {
        return;
      }
      StampsSame(old(time), old(act), current, seg);
      ok, aborted, heard, m, e := Take(seg, current, pos, ackPos);
    }

    /** Notes that something was heard. */
    method StampTraffic(now: u32)
      requires Valid()
      modifies this`act
      ensures Valid() && View() == old(View()) && act == Noticed(old(act), now)
    {
      hide Buffers, Sends, Receives, Timer, Bounded, R.Safe, History, Recovering, Coupled;
      act := act.(lastTraffic := now, lastRecv := now, bOutgoing := false);
    }

    lemma HearsIdle(p: S.Packet)
      requires Valid()
      ensures rcv.held <= |rcv.cells| && Hears(View(), View(), p, rcv)
    {
      hide Valid, Hears;
      HeldFits();
      HearsNothing(View(), p);
    }

    /** What the fields say about the bytes in flight. */
    lemma FlightFacts()
      requires Valid() && state != Closed
      ensures tx.sndUna == Wrap(snd.una) && tx.sndNxt == Wrap(snd.nxt) && 0 <= snd.nxt - snd.una < 0x4000_0000
      ensures tx.sndUna == tx.sndNxt <==> snd.una == snd.nxt
      ensures snd.fins < 0x1000_0000 && Loose(tcb.supportFinAck, snd)
                && Coupled(state, tcb.supportFinAck, snd, time.rtoBase)
    {
      hide S.Ok, R.Safe, Wrap, PseudoTcpFifo.Valid, Coupled, History, Recovering, Receives, Bounded, Timer, Loose;
      CoupledFins(state, tcb.supportFinAck, snd, time.rtoBase);
      InFlightBound(snd);
      WrapInjective(snd.nxt, snd.una);
    }

    /** A call that does nothing. */
    lemma Idle()
      requires Valid()
      ensures Acts(View(), View())
    {
      hide Valid, Acts;
      HeldFits();
      ActsNothing(View());
    }

    lemma SoundParts()
      requires Valid()
      ensures S.Ok(snd) && Coupled(state, tcb.supportFinAck, snd, time.rtoBase)
    {
      hide S.Ok, Coupled, R.Safe, PseudoTcpFifo.Valid, Receives, Timer, Bounded, History, Recovering, Queues;
    }

    /** Closes the socket because of a packet. */
    method Refuse(local: bool, ghost p: S.Packet)
      requires Valid()
      modifies this`state, this`tcb, this`history, this`tx, this`snd, this`size, this`net, this`act, this`time, sbuf,
        sbuf.buffer
      ensures Valid() && state == Closed && old(history) <= history
      ensures Hears(old(View()), View(), p, rcv)
      ensures tcb.supportFinAck == old(tcb.supportFinAck)
      ensures if local && tcb.supportFinAck then TellsReset(old(net), net) else net == old(net)
      ensures sbuf.buffer == old(sbuf.buffer)
    {
      hide TellsReset, S.Ok, R.Safe, Wrap, PseudoTcpFifo.Valid, Coupled, History, Listed, Scaled, Bounded, Recovering,
        Queues, Hears, Emitted, Loose, Flushed;
      ghost var a, n := View(), net;
      ghost var g := Start(net, snd.una, rcv.nxt, Edge(rcv));
      NothingEmitted(g, snd.stream, snd.nxt, rcv.nxt, rx.rwndScale);
      LooseIsEnoughWhenClosed(state, tcb.supportFinAck, snd, time.rtoBase);
      assert rcv.held <= |rcv.cells|;
      hide Sound;
      Closedown(local, g);
      HearsClosing(a, View(), p, g, n, net);
    }

    /** The connect message of a segment. */
    method Hello(seg: S.Segment, ghost p: S.Packet)
      requires Valid() && p.seg == seg && Orderly(seg, p.pos, rcv, Ignoring()) && Answers(seg, p.ackPos, snd)
      requires Connects(seg) && !HasSentFin(state) && Timely(seg.data, AsParty(), Ignoring(), rcv)
      modifies this`state, this`history, this`tcb, this`tx, this`snd, this`rx, this`rcv, this`fast, this`strained,
        this`size, rbuf, sbuf, sbuf.buffer
      ensures Valid() && sbuf.buffer == old(sbuf.buffer) && (rbuf.buffer == old(rbuf.buffer) || fresh(rbuf.buffer))
      ensures state == Greeted(old(state)) && old(history) <= history && state != Closed
      ensures Greets(old(View()), View(), p) && Orderly(seg, p.pos, rcv, Ignoring()) && Answers(seg, p.ackPos, snd)
      ensures Undecided(old(state), old(snd), snd, old(fast), fast, old(size.cwnd), size.cwnd)
      ensures rcv.nxt == old(rcv.nxt) && tcb.bWriteEnable == old(tcb.bWriteEnable)
    {
      hide Valid, Orderly, Answers, Timely, Party.Hears, Greets, S.Enqueue, ConnectMessage, Undecided;
      ghost var a := View();
      HandleConnect(seg.data);
      if a.ignoring && !Ignoring() {
        TimelyUnignored(seg.data, a.party, a.rx);
      }
      GreetsFrom(a, View(), p, AsParty().Message());
    }

    /** The options of a segment, if it is a connect message. */
    method Welcome(seg: S.Segment, now: u32, ghost p: S.Packet)
      requires Valid() && p.seg == seg && Orderly(seg, p.pos, rcv, Ignoring()) && Answers(seg, p.ackPos, snd)
                && state != Closed
      requires HasSentFin(state) ==> seg.data == []
      requires seg.flags.ctl ==> Connects(seg) && Timely(seg.data, AsParty(), Ignoring(), rcv)
      modifies this`state, this`history, this`tcb, this`tx, this`snd, this`rx, this`rcv, this`fast, this`strained,
        this`size, rbuf, sbuf, sbuf.buffer
      ensures Valid() && sbuf.buffer == old(sbuf.buffer) && (rbuf.buffer == old(rbuf.buffer) || fresh(rbuf.buffer))
      ensures state == (if seg.flags.ctl then Greeted(old(state)) else old(state)) && old(history) <= history
                && state != Closed
      ensures Greets(old(View()), View(), p) && Orderly(seg, p.pos, rcv, Ignoring()) && Answers(seg, p.ackPos, snd)
      ensures snd.una == old(snd.una) && snd.nxt == old(snd.nxt) && (HasSentFin(state) ==> seg.data == [])
      ensures !seg.flags.ctl ==>
                && View() == old(View()) && snd == old(snd) && fast == old(fast) && strained == old(strained)
                && Flies() == old(Flies())
      ensures seg.flags.ctl ==> Undecided(old(state), old(snd), snd, old(fast), fast, old(size.cwnd), size.cwnd)
      ensures rcv.nxt == old(rcv.nxt) && tcb.bWriteEnable == old(tcb.bWriteEnable)
      ensures CoversFin(snd, p.ackPos) == CoversFin(old(snd), p.ackPos)
      ensures seg.flags.ctl ==> state in {SynReceived, Established, CloseWait}
      ensures Fatal(snd, fast, size.cwnd, seg, p.ackPos, now) <==>
                Fatal(old(snd), old(fast), old(size.cwnd), seg, p.ackPos, now)
                    && !(seg.flags.ctl && old(state) == SynSent)
      ensures rcv.held <= |rcv.cells|
    {
      hide S.Ok, Coupled, Valid, Fatal, Undecided, Orderly, Answers, Timely, Greets, Party.Hears;
      ghost var a := View();
      GreetsNothing(a, p);
      SoundParts();
      if seg.flags.ctl {
        Hello(seg, p);
        FatalGreeted(old(state), old(tcb.supportFinAck), a.tx, snd, old(time.rtoBase), old(fast), fast, old(size.cwnd),
                     size.cwnd, seg, p.ackPos, now);
        UndecidedCovers(old(state), a.tx, snd, old(fast), fast, old(size.cwnd), size.cwnd, p.ackPos);
      }
      HeldFits();
      GreetsPositions(a, View(), p);
    }

    /** A segment of an open connection. */
    method Take(seg: S.Segment, now: u32, ghost pos: int, ghost ackPos: int)
      returns (ok: bool, aborted: bool, ghost heard: R.Receiver, ghost m: Flight, ghost e: Entry)
      requires Valid() && Orderly(seg, pos, rcv, Ignoring()) && Answers(seg, ackPos, snd) && state != Closed
                && (HasSentFin(state) ==> seg.data == [])
      requires seg.flags.ctl ==> Connects(seg) && Timely(seg.data, AsParty(), Ignoring(), rcv)
      modifies this`state, this`history, this`tcb, this`tx, this`snd, this`rx, this`rcv, this`size, this`net, this`act,
        this`time, this`fast, this`recoverPos, this`strained, rbuf, rbuf.buffer, sbuf, sbuf.buffer
      ensures aborted <==>
                Fatal(old(snd), old(fast), old(size.cwnd), seg, ackPos, now)
                && !(seg.flags.ctl && old(state) == SynSent)
      ensures aborted ==> strained || (old(state) == LastAck && old(snd.fins) >= 2 && old(fast.dupAcks) >= 3)
      ensures !aborted ==> Valid() && old(history) <= history
      ensures !aborted ==> Hears(old(View()), View(), S.Packet(pos, ackPos, seg), heard)
      ensures ok ==>
                !aborted && heard.held <= |heard.cells|
                && rcv == Received(heard, S.Packet(pos, ackPos, seg), Ignoring())
      ensures !ok && !aborted ==>
                Rejects(state, if seg.flags.ctl then Greeted(old(state)) else old(state), tcb.supportFinAck, old(snd),
                        old(fast), seg, ackPos, now, old(net), net)
      ensures ok ==> !(tcb.supportFinAck && seg.flags.fin && seg.data != [])
      ensures ok ==> Answered(old(View()), View(), S.Packet(pos, ackPos, seg))
      ensures ok ==> state == StateAfter(if seg.flags.ctl then Greeted(old(state)) else old(state),
                                         seg.flags.ctl, tcb.supportFinAck,
                                         seg.flags.fin, CoversFin(old(snd), ackPos))
      ensures ok && !seg.flags.ctl ==>
                AckEffect(old(Flies()).(time := Restamped(old(time), old(act), seg)), m, seg, ackPos, now)
      ensures ok ==> Replies(m, e, seg, pos, old(rcv.nxt), old(state) == SynReceived && !seg.flags.ctl,
                             old(tcb.bWriteEnable))
      ensures !ok && !aborted && state == Closed && tcb.supportFinAck ==> TellsReset(old(net), net)
      ensures sbuf.buffer == old(sbuf.buffer) && (rbuf.buffer == old(rbuf.buffer) || fresh(rbuf.buffer))
    {
      hide TellsReset, Fatal, Valid, Undecided, Orderly, Answers, Timely, Hears, Emitted, Digested, Party.Hears,
        Greets, Resized, R.ReceiveSegment, S.Enqueue, ConnectMessage, AckEffect, Replies, Restamped, StateAfter,
        Greeted, CoversFin, Answered, Connects, ScaledWindow, Rejects;
      ghost var a, p := View(), S.Packet(pos, ackPos, seg);
      Welcome(seg, now, p);
      heard := rcv;
      ghost var v, x, f, c, w := View(), tx, fast, size.cwnd, state;
      ghost var g := Start(net, snd.una, rcv.nxt, Edge(rcv));
      NothingEmitted(g, snd.stream, snd.nxt, rcv.nxt, rx.rwndScale);
      ok, aborted, m, e := Digest(seg, seg.flags.ctl, now, pos, ackPos, g);
      if !ok && !aborted && seg.flags.ctl {
        RejectsGreeted(old(state), state, w, tcb.supportFinAck, a.tx, v.tx, old(fast), f, old(size.cwnd), c, seg,
                       ackPos, now, old(net), net);
      }
      if !aborted {
        HearsFrom(a, v, View(), p, x, tx, g.(edge := Max(g.edge, Edge(rcv))), net, ok);
      }
    }

    // Calls of the application ------------------------------------------------

    /** Moves bytes from the ring to the application. */
    method TakeBytes(len: nat) returns (data: seq<byte>)
      requires Valid()
      modifies this`rcv, this`got, rbuf
      ensures Valid() && rbuf.buffer == old(rbuf.buffer)
      ensures |data| == Min(len, old(rcv.held)) && data == old(rcv.cells)[..|data|] && got == old(got) + data
      ensures rcv == R.TakeFront(old(rcv), |data|, old(rcv.wnd)) && rcv.held <= |rcv.cells|
    {
      hide S.Ok, R.Safe, Wrap, PseudoTcpFifo.Valid, Coupled, History, Listed, Scaled, Bounded, Recovering, Queues,
        Rotate, Sends, Timer;
      ghost var r := rcv;
      data := rbuf.Read(len);
      rcv := R.TakeFront(rcv, |data|, rcv.wnd);
      got := got + data;
      if !Ignoring() {
        R.TakeFrontSafe(r, |data|, r.wnd);
      }
    }

    /** Announces all the free space. */
    method OpenReceiveWindow()
      requires Valid()
      modifies this`rx, this`rcv
      ensures Valid() && rcv == old(rcv).(wnd := rcv.wnd) && rcv.wnd == rcv.Free()
      ensures rx == old(rx).(rcvWnd := rcv.wnd)
    {
      hide S.Ok, Wrap, PseudoTcpFifo.Valid, Coupled, History, Listed, Bounded, Recovering, Sends, Timer;
      var available := rbuf.GetWriteRemaining();
      rx := rx.(rcvWnd := available);
      rcv := rcv.(wnd := available);
    }

    /** Remembers an error and which event the application waits for. */
    method SetError(error: int, readEnable: bool, writeEnable: bool)
      requires Valid()
      modifies this`tcb
      ensures Valid() && View() == old(View())
      ensures tcb == old(tcb).(error := error, bReadEnable := old(tcb.bReadEnable) || readEnable,
                               bWriteEnable := old(tcb.bWriteEnable) || writeEnable)
    {
      hide Buffers, Sends, Receives, Timer, Bounded, R.Safe, History, Recovering, Coupled;
      tcb := tcb.(error := error, bReadEnable := tcb.bReadEnable || readEnable,
                  bWriteEnable := tcb.bWriteEnable || writeEnable);
    }

    /** Reads up to `len` bytes.  Returns their number, 0 once a FIN has been heard or
        reading was shut down, or -1. */
    method Recv(len: nat) returns (n: int, data: seq<byte>, ghost at: u32)
      requires Valid()
      modifies this`tcb, this`rx, this`rcv, this`got, this`tx, this`snd, this`size, this`net, this`act, this`time, rbuf
      ensures Valid() && Acts(old(View()), View())
      ensures -1 <= n <= len && |data| == Max(0, n) && got == old(got) + data
      ensures n > 0 ==> n == Min(len, old(rcv.held)) && data == old(rcv.cells)[..n]
      ensures n > 0 <==> len > 0 && old(rcv.held) > 0 && Readable(old(state), old(tcb))
      ensures n == 0 <==> AtEnd(old(state), old(tcb)) || (len == 0 && Readable(old(state), old(tcb)))
      ensures n > 0 ==> rcv.wnd == if Reopens(rcv.Free(), old(rcv.wnd), rx.rbufLen, old(size.mss)) then rcv.Free()
                else old(rcv.wnd)
      ensures n > 0 && old(rcv.wnd) == 0 && Reopens(rcv.Free(), 0, rx.rbufLen, old(size.mss)) ==>
                Concludes(old(Enters(SfImmediateAck, at)))
      ensures n <= 0 ==> rcv == old(rcv)
      ensures tcb == if n >= 0 then old(tcb)
                     else if old(tcb.supportFinAck || state == Established) then
                       old(tcb).(error := EWOULDBLOCK, bReadEnable := true)
                     else old(tcb).(error := ENOTCONN)
      ensures n <= 0 || !(old(rcv.wnd) == 0 && Reopens(rcv.Free(), 0, rx.rbufLen, old(size.mss))) ==> net == old(net)
      ensures rbuf.buffer == old(rbuf.buffer)
    {
      hide Valid, Acts, R.TakeFront, Emitted;
      n, data, at := 0, [], 0;
      HeldFits();
      Idle();
      if AtEnd(state, tcb) {
        return;
      }
      if !tcb.supportFinAck && state != Established {
        SetError(ENOTCONN, false, false);
        return -1, [], 0;
      }
      if len == 0 {
        return;
      }
      ghost var a := View();
      data := TakeBytes(len);
      if data == [] {
        TookNothing(a, View());
        SetError(EWOULDBLOCK, true, false);
        return -1, [], 0;
      }
      n := |data|;
      at := Reopen(a, data);
    }

    /** After a read: the window is announced anew once enough space is free, and if
        it was closed that is to be told at once.  `Pushed` says when that comes to
        nothing. */
    method Reopen(ghost a: End, ghost data: seq<byte>) returns (ghost at: u32)
      requires Valid() && a.rx.held <= |a.rx.cells| && |data| <= a.rx.held && data == a.rx.cells[..|data|]
      requires View() == a.(rx := R.TakeFront(a.rx, |data|, a.rx.wnd), got := a.got + data)
      modifies this`rx, this`rcv, this`tx, this`snd, this`size, this`net, this`act, this`time
      ensures Valid() && Acts(a, View()) && rbuf.buffer == old(rbuf.buffer)
      ensures rcv == old(rcv).(wnd := rcv.wnd)
      ensures rcv.wnd == if Reopens(rcv.Free(), a.rx.wnd, rx.rbufLen, old(size.mss)) then rcv.Free() else a.rx.wnd
      ensures if a.rx.wnd == 0 && Reopens(rcv.Free(), 0, rx.rbufLen, old(size.mss)) then
                Concludes(old(Enters(SfImmediateAck, at)))
              else net == old(net)
    {
      hide Concluded, Valid, Acts, Emitted, Rotate;
      at := 0;
      ghost var g := Start(net, snd.una, rcv.nxt, Edge(rcv));
      var available := Remaining();
      var wasClosed := rx.rcvWnd == 0;
      if Reopens(available, rx.rcvWnd, rx.rbufLen, size.mss) {
        OpenReceiveWindow();
        g := g.(edge := Max(g.edge, Edge(rcv)));
        NothingEmitted(g, snd.stream, snd.nxt, rcv.nxt, rx.rwndScale);
        if wasClosed {
          at := Push(SfImmediateAck, g);
        }
      } else {
        NothingEmitted(g, snd.stream, snd.nxt, rcv.nxt, rx.rwndScale);
      }
      GrowsNot(a, View());
      TookBytes(a.rx, rcv, a.got, got, data);
      ActsFrom(a, View(), g, net);
    }

    method Remaining() returns (n: nat)
      requires Valid()
      ensures n == rcv.Free() && rx.rcvWnd == rcv.wnd
    {
      hide S.Ok, R.Safe, Wrap, PseudoTcpFifo.Valid, Coupled, History, Listed, Scaled, Bounded, Recovering, Sends, Timer;
      n := rbuf.GetWriteRemaining();
    }

    /** Accepts data for the stream. */
    method QueueData(data: seq<byte>) returns (written: nat)
      requires Valid() && state == Established
      modifies this`tx, this`snd, sbuf, sbuf.buffer
      ensures Valid() && sbuf.buffer == old(sbuf.buffer) && |sbuf.cells| == old(|sbuf.cells|) && !old(snd.stream.sealed)
      ensures written == Min(|data|, old(|sbuf.cells| - |snd.kept|))
      ensures snd == S.Enqueue(old(snd), data[..written], FLAG_NONE)
      ensures tx == old(tx).(slist := tx.slist, unsent := tx.unsent)
    {
      hide S.Ok, R.Safe, Wrap, PseudoTcpFifo.Valid, Coupled, History, Listed, Scaled, Bounded, Recovering, Queues,
        S.Enqueue, Receives;
      CoupledOpen(state, tcb.supportFinAck, snd, time.rtoBase);
      ghost var s := snd;
      written := Queue(data, FLAG_NONE);
      CoupledData(state, tcb.supportFinAck, s, time.rtoBase, data[..written]);
      EnqueuedKept(s, data[..written], FLAG_NONE);
      RecoveringQueued(fast, size, s, snd, recoverPos, strained);
    }

    /** Sends data: returns how many bytes were accepted, or -1.  What may go of them
        goes out at once, or the network refuses it. */
    method Send(data: seq<byte>) returns (n: int, ghost e: Entry)
      requires Valid()
      modifies this`tcb, this`tx, this`snd, this`sent, this`size, this`net, this`act, this`time, sbuf, sbuf.buffer
      ensures Valid() && Acts(old(View()), View())
      ensures n >= 0 <==> old(state == Established && |snd.kept| < |sbuf.cells|)
      ensures n >= 0 ==> n == Min(|data|, old(|sbuf.cells| - |snd.kept|))
      ensures -1 <= n <= |data| && sent == old(sent) + data[..Max(0, n)]
      ensures n < 0 ==> n == -1 && snd == old(snd)
      ensures tcb.error == if n >= 0 then old(tcb.error) else if state == Established then EWOULDBLOCK
                           else if HasSentFin(state) then EPIPE else ENOTCONN
      ensures tcb.bWriteEnable == (old(tcb.bWriteEnable) || (state == Established && n < |data|))
      ensures n >= 0 ==>
                && Concludes(e) && Offers(old(Flies()).(tx := e.sits.tx), e, old(sbuf.dataLength) + n)
                && e.sits.tx == old(tx).(slist := e.sits.tx.slist, unsent := e.sits.tx.unsent)
      ensures sbuf.buffer == old(sbuf.buffer)
    {
      hide Offers, Valid, Acts, Concluded, AfterPause;
      HeldFits();
      Idle();
      e := Stands(SfNone, 0);
      assert sent + data[..0] == sent;
      if state != Established {
        SetError(if HasSentFin(state) then EPIPE else ENOTCONN, false, false);
        return -1, e;
      }
      var available := SendRemaining();
      if available == 0 {
        SetError(EWOULDBLOCK, false, true);
        return -1, e;
      }
      n, e := SendData(data);
      if 0 < n < |data| {
        SetError(tcb.error, false, true);
      }
    }

    method SendData(data: seq<byte>) returns (written: nat, ghost e: Entry)
      requires Valid() && state == Established
      modifies this`tx, this`snd, this`sent, this`size, this`net, this`act, this`time, sbuf, sbuf.buffer
      ensures Valid() && Acts(old(View()), View())
      ensures written == Min(|data|, old(|sbuf.cells| - |snd.kept|))
      ensures written <= |data| && sent == old(sent) + data[..written]
      ensures sbuf.buffer == old(sbuf.buffer) && Concludes(e)
      ensures Offers(old(Flies()).(tx := e.sits.tx), e, old(sbuf.dataLength) + written)
      ensures e.sits.tx == old(tx).(slist := e.sits.tx.slist, unsent := e.sits.tx.unsent)
    {
      hide Valid, Acts, S.Enqueue, Concluded, AfterPause;
      HeldFits();
      ghost var a := View();
      BufferedIsKept();
      written := QueueData(data);
      BufferedIsKept();
      EnqueuedKept(a.tx, data[..written], FLAG_NONE);
      LogSent(data[..written]);
      e := Launch(a);
    }

    /** The send buffer holds what is kept. */
    lemma BufferedIsKept()
      requires Valid()
      ensures sbuf.dataLength == |snd.kept|
    {
      hide S.Ok, R.Safe, Wrap, PseudoTcpFifo.Valid, Coupled, History, Bounded, Recovering, Receives, Timer, Queues;
    }

    /** Enters accepted bytes in the log. */
    ghost method LogSent(accepted: seq<byte>)
      requires Valid()
      modifies this`sent
      ensures Valid() && sent == old(sent) + accepted
    {
      hide Buffers, Sends, Receives, Timer, Bounded, R.Safe, History, Recovering, Coupled;
      sent := sent + accepted;
    }

    method SendRemaining() returns (n: nat)
      requires Valid()
      ensures n == |sbuf.cells| - |snd.kept|
    {
      hide S.Ok, R.Safe, Wrap, PseudoTcpFifo.Valid, Coupled, History, Bounded, Recovering, Receives, Timer;
      n := sbuf.GetWriteRemaining();
    }

    /** Closes the socket at once. */
    method CloseNow(local: bool)
      requires Valid()
      modifies this`state, this`tcb, this`history, this`tx, this`snd, this`size, this`net, this`act, this`time, sbuf,
        sbuf.buffer
      ensures Valid() && state == Closed && old(history) <= history && Acts(old(View()), View())
      ensures local && old(tcb.supportFinAck) ==> Flushed(old(snd), snd, old(net), net, FLAG_RST)
      ensures !local || !old(tcb.supportFinAck) ==> net == old(net)
      ensures tcb == old(tcb).(shutdown := if local && !tcb.supportFinAck then SdForceful else tcb.shutdown)
      ensures sbuf.buffer == old(sbuf.buffer)
    {
      hide S.Ok, R.Safe, Wrap, PseudoTcpFifo.Valid, Coupled, History, Listed, Scaled, Bounded, Recovering, Queues,
        Acts, Emitted, Loose, Flushed;
      ghost var a, n := View(), net;
      ghost var g := Start(net, snd.una, rcv.nxt, Edge(rcv));
      NothingEmitted(g, snd.stream, snd.nxt, rcv.nxt, rx.rwndScale);
      LooseIsEnoughWhenClosed(state, tcb.supportFinAck, snd, time.rtoBase);
      assert rcv.held <= |rcv.cells|;
      hide Sound;
      Closedown(local, g);
      ActsClosing(a, View(), g, n, net, FLAG_RST);
    }

    /** Sends a FIN behind everything queued and enters the state that says so.
        If the network takes every packet, all queued bytes are out, in order,
        with the FIN last. */
    method SendFin(next: TcpState)
      requires Valid() && tcb.supportFinAck
      requires (state in {SynReceived, Established} && next == FinWait1) || (state == CloseWait && next == LastAck)
      modifies this`state, this`history, this`tx, this`snd, this`size, this`net, this`act, this`time, sbuf, sbuf.buffer
      ensures Valid() && state == next && old(history) <= history && Acts(old(View()), View())
      ensures Flushed(old(snd), snd, old(net), net, FLAG_FIN)
      ensures sbuf.buffer == old(sbuf.buffer)
    {
      hide Core, Coupled, Acts, Emitted, Flushed, Forward;
      HeldFits();
      ghost var a, n := View(), net;
      ghost var g := Start(net, snd.una, rcv.nxt, Edge(rcv));
      NothingEmitted(g, snd.stream, snd.nxt, rcv.nxt, rx.rwndScale);
      FlushFin(next, g);
      Downhill();
      ChangeState(next);
      ActsClosing(a, View(), g, n, net, FLAG_FIN);
    }

    /** The FIN on its way, before the state tells. */
    method FlushFin(next: TcpState, ghost g: Start)
      requires Valid() && tcb.supportFinAck && Since(g) && Within(g)
      requires (state in {SynReceived, Established} && next == FinWait1) || (state == CloseWait && next == LastAck)
      modifies this`tx, this`snd, this`size, this`net, this`act, this`time, sbuf, sbuf.buffer
      ensures Core() && Since(g) && Coupled(next, tcb.supportFinAck, snd, time.rtoBase)
      ensures Flushed(old(snd), snd, old(net), net, FLAG_FIN) && sbuf.buffer == old(sbuf.buffer)
      ensures tx == old(tx).(slist := tx.slist, unsent := tx.unsent, sndNxt := tx.sndNxt)
    {
      hide S.Ok, R.Safe, Wrap, PseudoTcpFifo.Valid, Coupled, History, Listed, Scaled, Bounded, Recovering, Queues,
        Since, Within, Loose, Flushed, Searched;
      ghost var s, n, z := snd, net, size;
      LooseIsEnoughWhenClosed(state, tcb.supportFinAck, snd, time.rtoBase);
      CoupledOpen(state, tcb.supportFinAck, snd, time.rtoBase);
      assert S.Ok(snd);
      hide Sound;
      Flush(FLAG_FIN, g);
      FlushedKept(s, snd, n, net, FLAG_FIN);
      RecoveringKept(fast, z, size, s, snd, recoverPos, strained);
      CoupledFin(state, next, true, s, snd, n, net, old(time.rtoBase), time.rtoBase);
    }

    /** Shuts down one or both directions. */
    method ShutDown(how: How)
      requires Valid()
      modifies this`state, this`tcb, this`history, this`tx, this`snd, this`size, this`net, this`act, this`time, sbuf,
        sbuf.buffer
      ensures Valid() && old(history) <= history && Acts(old(View()), View())
      ensures !old(tcb.supportFinAck) ==>
                && state == old(state) && net == old(net)
                && tcb.shutdown == if old(tcb.shutdown) == SdNone then SdGraceful else old(tcb.shutdown)
      ensures old(tcb.supportFinAck) ==> tcb.shutdownReads == (old(tcb.shutdownReads) || how != ShutdownWr)
      ensures old(tcb.supportFinAck) && how == ShutdownRd ==> state == old(state) && net == old(net)
      ensures old(tcb.supportFinAck) && how != ShutdownRd ==>
                WritesShut(old(state), old(rcv.held), old(snd), old(net), state, snd, net)
      ensures sbuf.buffer == old(sbuf.buffer)
    {
      hide View, Valid, Acts, Flushed;
      HeldFits();
      Idle();
      if !tcb.supportFinAck {
        ShutGracefully();
        return;
      }
      if how != ShutdownWr {
        ShutReads();
      }
      if how == ShutdownRd {
        return;
      }
      ShutWrites();
    }

    /** The end of the stream, according to how far the connection has come. */
    method ShutWrites()
      requires Valid() && tcb.supportFinAck
      modifies this`state, this`tcb, this`history, this`tx, this`snd, this`size, this`net, this`act, this`time, sbuf,
        sbuf.buffer
      ensures Valid() && old(history) <= history && Acts(old(View()), View())
      ensures tcb == old(tcb).(shutdown := tcb.shutdown)
      ensures WritesShut(old(state), rcv.held, old(snd), old(net), state, snd, net)
      ensures sbuf.buffer == old(sbuf.buffer)
    {
      hide Valid, View, Acts, Flushed;
      HeldFits();
      Idle();
      if state == Listen || state == SynSent {
        Abandon();
      } else if state == Established && rbuf.dataLength > 0 {
        CloseNow(true);
      } else if state == SynReceived || state == Established {
        SendFin(FinWait1);
      } else if state == CloseWait {
        SendFin(LastAck);
      }
    }

    method ShutGracefully()
      requires Valid() && !tcb.supportFinAck
      modifies this`tcb
      ensures Valid() && tcb == old(tcb).(
                shutdown := if old(tcb.shutdown) == SdNone then SdGraceful else old(tcb.shutdown))
      ensures Acts(old(View()), View())
    {
      hide Buffers, Sends, Timer, Bounded, R.Safe, History, Recovering, Coupled, Acts;
      ghost var a := View();
      if tcb.shutdown == SdNone {
        tcb := tcb.(shutdown := SdGraceful);
      }
      ActsIgnoring(a, View());
    }

    method ShutReads()
      requires Valid()
      modifies this`tcb
      ensures Valid() && tcb == old(tcb).(shutdownReads := true) && View() == old(View())
    {
      hide Buffers, Sends, Timer, Bounded, R.Safe, History, Recovering, Coupled, Receives;
      tcb := tcb.(shutdownReads := true);
    }

    /** Gives up a connection that was never made. */
    method Abandon()
      requires Valid() && state in {Listen, SynSent, TimeWait}
      modifies this`state, this`history
      ensures Valid() && state == Closed && old(history) <= history && View() == old(View())
    {
      hide Sound, Recovering, Coupled, Forward;
      Downhill();
      ChangeState(Closed);
      LooseIsEnoughWhenClosed(old(state), tcb.supportFinAck, snd, time.rtoBase);
      LooseIsEnoughWhenClosed(state, tcb.supportFinAck, snd, time.rtoBase);
    }

    /** Closes the socket, by force or by shutting down both directions. */
    method Close(force: bool)
      requires Valid()
      modifies this`state, this`tcb, this`history, this`tx, this`snd, this`size, this`net, this`act, this`time, sbuf,
        sbuf.buffer
      ensures Valid() && old(history) <= history && Acts(old(View()), View())
      ensures force ==> state == Closed
      ensures force && old(state) != Closed && old(tcb.supportFinAck) ==>
                Flushed(old(snd), snd, old(net), net, FLAG_RST)
      ensures force && old(state) != Closed && !old(tcb.supportFinAck) ==> tcb.shutdown == SdForceful && net == old(net)
      ensures (!force || old(state) == Closed) && !old(tcb.supportFinAck) ==>
                && state == old(state) && net == old(net)
                && tcb.shutdown == if old(tcb.shutdown) == SdNone then SdGraceful else old(tcb.shutdown)
      ensures !force && old(tcb.supportFinAck) ==>
                tcb.shutdownReads && WritesShut(old(state), old(rcv.held), old(snd), old(net), state, snd, net)
      ensures sbuf.buffer == old(sbuf.buffer)
    {
      hide View, Valid, Acts, Flushed;
      if force && state != Closed {
        CloseNow(true);
        return;
      }
      ShutDown(ShutdownRdWr);
    }

    // The clock ---------------------------------------------------------------

    /** The FIN again: it has not been acknowledged in LAST-ACK. */
    method ResendFin(ghost g: Start)
      requires Valid() && tcb.supportFinAck && state == LastAck && FinTotal(snd) < 0xFFF_FFFF && Since(g) && Within(g)
      modifies this`tx, this`snd, this`size, this`net, this`act, this`time, sbuf, sbuf.buffer
      ensures Valid() && Since(g) && Ticks(old(snd), snd) && sbuf.buffer == old(sbuf.buffer)
      ensures Flushed(old(snd), snd, old(net), net, FLAG_FIN) && TimerKept(old(time), time)
      ensures tx == old(tx).(slist := tx.slist, unsent := tx.unsent, sndNxt := tx.sndNxt)
    {
      hide S.Ok, R.Safe, Wrap, PseudoTcpFifo.Valid, Coupled, History, Listed, Scaled, Bounded, Recovering, Queues,
        Since, Within, Loose, Flushed, Searched, FinCount, Ticks;
      ghost var s, n, z := snd, net, size;
      LooseIsEnoughWhenClosed(state, tcb.supportFinAck, snd, time.rtoBase);
      CoupledTimeWait(state, tcb.supportFinAck, snd, time.rtoBase);
      hide Sound;
      Flush(FLAG_FIN, g);
      FlushedKept(s, snd, n, net, FLAG_FIN);
      FlushedTicks(s, snd, n, net, FLAG_FIN);
      RecoveringKept(fast, z, size, s, snd, recoverPos, strained);
      CoupledFinAgain(true, s, snd, n, net, old(time.rtoBase), time.rtoBase);
    }

    /** The retransmission timer has run out: the first segment again, a small
        window, and twice the time to the next attempt. */
    method Timeout(now: u32, ghost g: Start) returns (ok: bool)
      requires Valid() && Since(g) && Within(g) && time.rtoBase != 0 && state != Closed
      modifies this`tx, this`snd, this`size, this`net, this`act, this`time, this`fast
      ensures Sound() && Coupled(state, tcb.supportFinAck, snd, time.rtoBase) && Since(g) && Ticks(old(snd), snd)
      ensures ok ==> Valid() && BackedOff(state, old(time), time, size, old(fast), fast, snd.nxt - snd.una, now)
      ensures ok ==> HeadAgain(old(snd), old(Flies()), Flies(), now) && old(tx.slist == snd.slist)
      ensures ok || Stuck(old(snd).slist, state, old(net), net)
      ensures old(net.out) <= net.out && snd.nxt == old(snd.nxt)
      ensures tx == old(tx).(slist := tx.slist, unsent := tx.unsent, sndNxt := tx.sndNxt)
    {
      hide Sound, Coupled, Since, Within, BackedOff, Recovering, OfHead;
      ghost var t := time;
      ok := ResendHead(now, g);
      if ok {
        ghost var u := time;
        BackOff(now);
        BackedOffLater(state, t, u, time, size, old(fast), fast, snd.nxt - snd.una, now);
      }
    }

    /** The first segment again, because of a timer. */
    method ResendHead(now: u32, ghost g: Start) returns (ok: bool)
      requires Valid() && Since(g) && Within(g) && time.rtoBase != 0 && state != Closed
      modifies this`tx, this`snd, this`size, this`net, this`act, this`time
      ensures Sound() && Coupled(state, tcb.supportFinAck, snd, time.rtoBase) && Since(g) && Ticks(old(snd), snd)
      ensures ok ==> HeadAgain(old(snd), old(Flies()), Flies(), now) && old(tx.slist == snd.slist)
      ensures ok || Stuck(old(snd).slist, state, old(net), net)
      ensures old(net.out) <= net.out && snd.nxt == old(snd.nxt)
      ensures ok ==> Core() && !snd.finAcked && snd.k > 0 && 0 <= snd.nxt - snd.una < 0x4000_0000
      ensures TimerKept(old(time), time)
      ensures tx == old(tx).(slist := tx.slist, unsent := tx.unsent, sndNxt := tx.sndNxt)
    {
      hide S.Ok, R.Safe, Wrap, Sub, PseudoTcpFifo.Valid, Coupled, AckedIn, History, Listed, Scaled, Recovering, Since,
        Within, Receives, Searched, Bounded, OfHead;
      CoupledTimeWait(state, tcb.supportFinAck, snd, time.rtoBase);
      CoupledFins(state, tcb.supportFinAck, snd, time.rtoBase);
      AckedInIsCoupled(state, tcb.supportFinAck, snd, time.rtoBase);
      InFlightBound(snd);
      ghost var s, z := snd, size;
      SameStream(snd.stream);
      assert snd.k > 0;
      hide Sound;
      var aborted;
      ok, aborted := Retransmit(now, g, false);
      AckedInIsCoupled(state, tcb.supportFinAck, snd, time.rtoBase);
      assert !aborted;
      RecoveringKept(fast, z, size, s, snd, recoverPos, strained);
    }

    method BackOff(now: u32)
      requires Core() && Coupled(state, tcb.supportFinAck, snd, time.rtoBase) && !snd.finAcked && snd.k > 0
      requires 0 <= snd.nxt - snd.una < 0x4000_0000
      modifies this`size, this`time, this`fast
      ensures size == old(size).(cwnd := size.cwnd)
      ensures Valid() && BackedOff(state, old(time), time, size, old(fast), fast, snd.nxt - snd.una, now)
    {
      hide S.Ok, R.Safe, Wrap, Sub, PseudoTcpFifo.Valid, Coupled, History, Listed, Scaled, Receives;
      WrapInjective(snd.nxt, snd.una);
      var nInFlight: int := Sub(tx.sndNxt, tx.sndUna);
      fast := fast.(ssthresh := Max(nInFlight / 2, 2 * size.mss));
      size := size.(cwnd := size.mss);
      var limit := if state in {Listen, SynSent, SynReceived} then DEF_RTO else MAX_RTO;
      time := time.(rxRto := Min(limit, time.rxRto * 2), rtoBase := now);
      CoupledTimer(state, tcb.supportFinAck, snd, old(time.rtoBase), time.rtoBase);
    }

    /** A packet without payload, at the given distance before `nxt`. */
    method SendEmpty(back: nat, now: u32, ghost g: Start)
      requires Valid() && Since(g) && Within(g) && back <= 1
      modifies this`net, this`act
      ensures Valid() && Since(g) && old(net.out) <= net.out && |net.out| == |old(net.out)| + 1
      ensures net.out[|old(net.out)|].seg.data == [] && net.out[|old(net.out)|].pos == snd.nxt - back
      ensures Stamped(old(act), act, false, now)
    {
      hide S.Ok, R.Safe, Wrap, Sub, PseudoTcpFifo.Valid, Coupled, History, Listed, Scaled, Recovering, Bounded,
        Emitted, WindowField;
      ghost var n := net;
      WrapArithmetic(snd.nxt, back);
      var w := Packet(Sub(tx.sndNxt, back), FLAG_NONE, 0, 0, now, snd.nxt - back);
      DeliveredOne(n, net, snd, rcv.nxt, WindowField(rx.rcvWnd, rx.rwndScale));
      EmittedSince(g, n, net, snd, snd, rcv.nxt, rcv.wnd, rx.rwndScale);
    }

    /** Asks whether a closed window has opened. */
    method Probe(now: u32, ghost g: Start)
      requires Valid() && Since(g) && Within(g)
      modifies this`net, this`act, this`time
      ensures old(net.out) <= net.out && |net.out| == |old(net.out)| + 1
      ensures net.out[|old(net.out)|].seg.data == [] && net.out[|old(net.out)|].pos == snd.nxt - 1
      ensures Valid() && Since(g) && time == old(time).(rxRto := Min(MAX_RTO, 2 * old(time.rxRto)))
                && act.lastSend == now && act.tAck == 0
    {
      hide Buffers, Sends, Receives, Bounded, R.Safe, History, Recovering, Coupled, Since;
      SendEmpty(1, now, g);
      act := act.(lastSend := now);
      time := time.(rxRto := Min(MAX_RTO, time.rxRto * 2));
    }

    /** Gives the connection up. */
    method GiveUp(ghost g: Start)
      requires Sound() && Coupled(state, tcb.supportFinAck, snd, time.rtoBase) && Since(g) && Within(g)
      modifies this`state, this`tcb, this`history, this`tx, this`snd, this`size, this`net, this`act, this`time, sbuf,
        sbuf.buffer
      ensures Valid() && Since(g) && state == Closed && old(history) <= history && Ticks(old(snd), snd)
      ensures AsParty() == old(AsParty()) && tx.sndWnd == old(tx.sndWnd) && (old(Ignoring()) ==> Ignoring())
      ensures sbuf.buffer == old(sbuf.buffer) && old(net.out) <= net.out && old(net).failures <= net.failures
      ensures tcb.supportFinAck == old(tcb.supportFinAck) && (tcb.supportFinAck ==> TellsReset(g.net, net))
    {
      hide Sound, Since, Within, Coupled, Loose, Flushed, Ticks, TellsReset;
      ghost var s, n := snd, net;
      LooseIsEnoughWhenClosed(state, tcb.supportFinAck, snd, time.rtoBase);
      TicksNothing(snd);
      Closedown(true, g);
      if tcb.supportFinAck {
        FlushedTicks(s, snd, n, net, FLAG_RST);
        assert Flushed(s, snd, n, net, FLAG_RST);
        FlushedOut(s, snd, n, net, FLAG_RST);
      }
    }

    /** The state part of a clock tick. */
    method TickState(ghost g: Start)
      requires Valid() && Since(g) && Within(g) && state != Closed && (state == LastAck ==> FinTotal(snd) < 0xFFF_FFFF)
      modifies this`state, this`history, this`tx, this`snd, this`size, this`net, this`act, this`time, sbuf, sbuf.buffer
      ensures Valid() && Since(g) && old(history) <= history && Ticks(old(snd), snd)
      ensures state == if tcb.supportFinAck && old(state) == TimeWait then Closed else old(state)
      ensures state == Closed ==> time.rtoBase == 0
      ensures old(state) == LastAck && tcb.supportFinAck ==>
                Flushed(old(snd), snd, old(net), net, FLAG_FIN) && TimerKept(old(time), time)
      ensures state == old(state) && !(state == LastAck && tcb.supportFinAck) ==>
                time == old(time) && tx == old(tx) && act == old(act) && net == old(net) && snd == old(snd)
      ensures AsParty() == old(AsParty()) && tx.sndWnd == old(tx.sndWnd) && sbuf.buffer == old(sbuf.buffer)
    {
      hide Core, Coupled, Since, Within, Ticks, FinCount, Flushed;
      TicksNothing(snd);
      CoupledTimeWait(state, tcb.supportFinAck, snd, time.rtoBase);
      hide Valid;
      if tcb.supportFinAck && state == TimeWait {
        Abandon();
      } else if tcb.supportFinAck && state == LastAck {
        ResendFin(g);
      }
    }

    predicate RtoDue(now: u32)
      reads this`time
    {
      time.rtoBase != 0 && TimeDiff(Add(time.rtoBase, time.rxRto), now) <= 0
    }

    predicate ProbeDue(now: u32)
      reads this`tx, this`act, this`time
    {
      tx.sndWnd == 0 && TimeDiff(Add(act.lastSend, time.rxRto), now) <= 0
    }

    /** The same once the retransmission timer, if it is due, has been served: the
        first segment has gone out again, and the timeout has grown. */
    predicate ProbeNext(now: u32)
      reads this`tx, this`act, this`time, this`state
    {
      if RtoDue(now) then
        && tx.sndWnd == 0 && tx.slist != [] && tx.slist[0].len == 0
        && TimeDiff(Add(act.lastSend, Backed(state, time.rxRto)), now) <= 0
      else ProbeDue(now)
    }

    predicate AckDue(now: u32)
      reads this`act, this`time
    {
      act.tAck != 0 && TimeDiff(Add(act.tAck, time.ackDelay), now) <= 0
    }

    /** What the tests of the timers mean. */
    lemma DueMeans(d: Due, now: u32)
      requires Valid() && d.rto == RtoDue(now) && d.probe == ProbeNext(now) && d.ack == AckDue(now)
      requires d.silent == (TimeDiff(now, act.lastRecv) >= 15000)
      ensures TimersDue(d, state, tx, time, act, now) && RtoMeans(d.rto, time, now)
    {
      hide TimeDiff, Add, Wrap;
      RtoInBounds();
      forall n, b | Instants(n, now, b, time.rtoBase)
        ensures TimeDiff(Add(time.rtoBase, time.rxRto), now) <= 0 <==> n - b >= time.rxRto
      {
        RunsOut(b, time.rxRto, n);
      }
      forall n, b | time.ackDelay < 0x8000_0000 && Instants(n, now, b, act.tAck)
        ensures TimeDiff(Add(act.tAck, time.ackDelay), now) <= 0 <==> n - b >= time.ackDelay
      {
        RunsOut(b, time.ackDelay, n);
      }
      forall n, b | Instants(n, now, b, act.lastSend)
        ensures TimeDiff(Add(act.lastSend, time.rxRto), now) <= 0 <==> n - b >= time.rxRto
        ensures TimeDiff(Add(act.lastSend, Backed(state, time.rxRto)), now) <= 0 <==> n - b >= Backed(state, time.rxRto)
      {
        RunsOut(b, time.rxRto, n);
        RunsOut(b, Backed(state, time.rxRto), n);
      }
      forall n, b | Instants(n, now, b, act.lastRecv) ensures TimeDiff(now, act.lastRecv) >= 15000 <==> n - b >= 15000 {
        TimeDiffOrdersInstants(n, b);
      }
    }

    lemma RtoInBounds()
      requires Valid()
      ensures 0 < Backed(state, time.rxRto) <= MAX_RTO && 0 < time.rxRto <= MAX_RTO
    {
    }

    /** The timers of a clock tick: whichever is due, something is sent or the
        connection is given up. */
    method TickTimers(now: u32, ghost g: Start) returns (ghost due: Due)
      requires Valid() && Since(g) && Within(g) && (state == Closed ==> time.rtoBase == 0)
      modifies this`state, this`tcb, this`history, this`tx, this`snd, this`size, this`net, this`act, this`time,
        this`fast, sbuf, sbuf.buffer
      ensures Valid() && Since(g) && old(history) <= history && Ticks(old(snd), snd)
      ensures state == old(state) || state == Closed
      ensures due == Due(old(snd), old(net), old(RtoDue(now)), old(ProbeNext(now)), old(AckDue(now)),
                         old(TimeDiff(now, act.lastRecv) >= 15000), old(state))
      ensures Served(due, snd, net, state == Closed, size, fast)
      ensures state == Closed && old(state) != Closed && tcb.supportFinAck ==> TellsReset(g.net, net)
      ensures AsParty() == old(AsParty()) && tx.sndWnd == old(tx.sndWnd) && (old(Ignoring()) ==> Ignoring())
      ensures sbuf.buffer == old(sbuf.buffer)
    {
      hide Flushed, Core, Sound, Coupled, Since, Within, Ticks, TimeDiff, Add, OfHead, TellsReset, Backed;
      ghost var s := snd;
      due := Due(snd, net, RtoDue(now), ProbeNext(now), AckDue(now), TimeDiff(now, act.lastRecv) >= 15000,
                 state);
      TicksNothing(snd);
      if RtoDue(now) {
        RtoInBounds();
        JustStarted(now, Backed(state, time.rxRto));
        var ok := Timeout(now, g);
        if !ok {
          ghost var t := snd;
          GiveUp(g);
          TicksTwice(s, t, snd);
          return;
        }
      }
      if ProbeDue(now) {
        if TimeDiff(now, act.lastRecv) >= 15000 {
          ghost var t := snd;
          SoundValid();
          GiveUp(g);
          TicksTwice(s, t, snd);
          return;
        }
        Probe(now, g);
      }
      if AckDue(now) {
        SendEmpty(0, now, g);
      }
    }

    lemma SoundValid()
      requires Valid()
      ensures Sound() && Coupled(state, tcb.supportFinAck, snd, time.rtoBase)
    {
      hide Sound, Coupled;
    }

    /** The clock. */
    method NotifyClock() returns (ghost now: u32, ghost due: Due)
      requires Valid() && (state == LastAck ==> FinTotal(snd) < 0xFFF_FFFF)
      modifies this`state, this`tcb, this`history, this`tx, this`snd, this`size, this`net, this`act, this`time,
        this`fast, sbuf, sbuf.buffer
      ensures Valid() && old(history) <= history && Acts(old(View()), View())
      ensures old(state) == Closed ==> View() == old(View())
      ensures old(state) == TimeWait && tcb.supportFinAck ==> state == Closed
      ensures state == old(state) || state == Closed
      ensures old(state) != Closed ==> Served(due, snd, net, state == Closed, size, fast)
      ensures old(state) !in {TimeWait, Closed} && state == Closed && tcb.supportFinAck ==> TellsReset(old(net), net)
      ensures old(state) != Closed && !(old(state) in {TimeWait, LastAck} && tcb.supportFinAck) ==>
                && due.snd == old(snd) && due.net == old(net) && due.state == old(state)
                && TimersDue(due, old(state), old(tx), old(time), old(act), now)
      ensures old(state) == LastAck && tcb.supportFinAck ==>
                Flushed(old(snd), due.snd, old(net), due.net, FLAG_FIN) && due.state == LastAck
      ensures old(state) == LastAck && tcb.supportFinAck && old(time.rtoBase) != 0 ==>
                RtoMeans(due.rto, old(time), now)
      ensures sbuf.buffer == old(sbuf.buffer)
    {
      hide Served, Flushed, OfHead, Valid, Acts, Emitted, Ticks, FinCount, TimeDiff, Add, TimersDue, RtoMeans,
        TellsReset;
      HeldFits();
      Idle();
      var current := CurrentTime();
      now := current;
      due := Due(snd, net, false, false, false, false, Closed);
      if state == Closed {
        return;
      }
      ghost var a := View();
      ghost var g := Start(net, snd.una, rcv.nxt, Edge(rcv));
      NothingEmitted(g, snd.stream, snd.nxt, rcv.nxt, rx.rwndScale);
      ghost var d := Due(snd, net, RtoDue(now), ProbeNext(now), AckDue(now), TimeDiff(now, act.lastRecv) >= 15000,
                         state);
      DueMeans(d, current);
      TickState(g);
      ghost var t := snd;
      due := TickTimers(current, g);
      TicksTwice(a.tx, t, snd);
      ActsTicking(a, View(), g, net);
    }

    /** Whether a shutdown without FIN-ACK is complete. */
    predicate Drained()
      reads this`tcb, this`state, this`act, sbuf`dataLength
    {
      || tcb.shutdown == SdForceful
      || (tcb.shutdown == SdGraceful && (state != Established || (sbuf.dataLength == 0 && act.tAck == 0)))
    }

    /** A socket is done after a shutdown without FIN-ACK: at once if that was forced, and
        otherwise unless it is established and still has bytes not acknowledged or an
        acknowledgement to send. */
    lemma DrainedMeans()
      requires Valid()
      ensures Drained() <==>
              && tcb.shutdown != SdNone
              && (tcb.shutdown == SdGraceful && state == Established ==> snd.kept == [] && act.tAck == 0)
    {
      BufferedIsKept();
    }

    /** When the clock is to be called next: at the earliest of the time asked for,
        the default time from now and the timers that are running.  Returns false
        when it need not be called again. */
    method GetNextClock(timeout0: nat) returns (ok: bool, timeout: nat, ghost now: u32)
      requires Valid()
      modifies this`state, this`tcb, this`history, this`tx, this`snd, this`size, this`net, this`act, this`time, sbuf,
        sbuf.buffer
      ensures Valid() && old(history) <= history && Acts(old(View()), View())
      ensures ok <==> !old(Drained()) && !(tcb.supportFinAck && old(state) == Closed)
      ensures old(Drained()) ==> state == Closed
      ensures !old(Drained()) ==> state == old(state) && net == old(net)
      ensures ok && state == TimeWait && tcb.supportFinAck ==>
                timeout == Min(AskedFor(timeout0, now, TIME_WAIT_TIMEOUT), Add(now, TIME_WAIT_TIMEOUT))
      ensures ok && state == Closed ==> timeout == Min(AskedFor(timeout0, now, CLOSED_TIMEOUT),
                                                       Add(now, CLOSED_TIMEOUT))
      ensures ok && state != Closed && !(state == TimeWait && tcb.supportFinAck) ==>
                && timeout <= AskedFor(timeout0, now, CLOSED_TIMEOUT) && timeout <= Add(now, DEFAULT_TIMEOUT)
                && (act.tAck != 0 ==> timeout <= Add(act.tAck, time.ackDelay))
                && (time.rtoBase != 0 ==> timeout <= Add(time.rtoBase, time.rxRto))
                && (tx.sndWnd == 0 ==> timeout <= Add(act.lastSend, time.rxRto))
                && (|| timeout == AskedFor(timeout0, now, CLOSED_TIMEOUT) || timeout == Add(now, DEFAULT_TIMEOUT)
                    || (act.tAck != 0 && timeout == Add(act.tAck, time.ackDelay))
                    || (time.rtoBase != 0 && timeout == Add(time.rtoBase, time.rxRto))
                    || (tx.sndWnd == 0 && timeout == Add(act.lastSend, time.rxRto)))
      ensures sbuf.buffer == old(sbuf.buffer)
    {
      hide View, Valid, Acts, Add, Flushed;
      HeldFits();
      Idle();
      var current := CurrentTime();
      now := current;
      timeout := timeout0;
      if Drained() {
        CloseNow(false);
        return false, timeout, now;
      }
      if tcb.supportFinAck && state == Closed {
        return false, timeout, now;
      }
      ok := true;
      var closedTimeout := if tcb.supportFinAck && state == TimeWait then TIME_WAIT_TIMEOUT else CLOSED_TIMEOUT;
      if timeout == 0 || timeout < current {
        timeout := Add(current, closedTimeout);
      }
      if tcb.supportFinAck && state == TimeWait {
        timeout := Min(timeout, Add(current, TIME_WAIT_TIMEOUT));
        return;
      }
      if state == Closed {
        timeout := Min(timeout, Add(current, CLOSED_TIMEOUT));
        return;
      }
      timeout := Min(timeout, Add(current, DEFAULT_TIMEOUT));
      if act.tAck != 0 {
        timeout := Min(timeout, Add(act.tAck, time.ackDelay));
      }
      if time.rtoBase != 0 {
        timeout := Min(timeout, Add(time.rtoBase, time.rxRto));
      }
      if tx.sndWnd == 0 {
        timeout := Min(timeout, Add(act.lastSend, time.rxRto));
      }
    }
  }
}
