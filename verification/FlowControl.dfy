/** Flow control across both ends of a connection. */
module FlowControl {
  import opened Seq32
  import opened Fifo
  import opened Segments
  import opened Options
  import opened SendLoop
  import opened Connection
  import opened Steps
  import opened Channel
  import R = Reassembly
  import S = Sending

  /** The window is free space, and what is listed lies within it. */
  ghost predicate InWindow(r: R.Receiver) {
    && r.held <= |r.cells| && r.wnd <= r.Free()
    && forall i :: 0 <= i < |r.pieces| ==> r.pieces[i].End() <= Edge(r)
  }

  // One receiver -------------------------------------------------------------

  /** Bytes within the window leave its right edge where it is and cannot make it
      negative. */
  lemma StoreKeepsWindow(r: R.Receiver, pos: int, data: seq<byte>)
    requires R.Ok(r) && InWindow(r) && data != [] && r.nxt <= pos && pos + |data| <= Edge(r)
    ensures InWindow(R.Store(r, pos, data)) && Edge(R.Store(r, pos, data)) == Edge(r)
  {
    hide Overwrite, R.Reach, R.Beyond, R.Insert, Sub, R.Sorted, R.Between;
    var t := R.Store(r, pos, data);
    R.StoreAdvance(r, pos, data);
    if pos == r.nxt {
      R.ReachBounds(r.pieces, r.nxt + |data|, Edge(r));
      SortedOk(r);
      R.ReachIsMaximal(r.pieces, r.nxt + |data|);
      AddSubAreWrap(r.wnd, t.nxt - r.nxt);
      WrapNear(r.wnd - (t.nxt - r.nxt));
    } else {
      R.InsertAdds(r.pieces, R.Piece(pos, |data|));
    }
  }

  lemma SortedOk(r: R.Receiver)
    requires R.Ok(r)
    ensures R.Sorted(r.pieces)
  {
  }

  lemma ReceiveKeepsWindow(r: R.Receiver, pos: int, data: seq<byte>)
    requires R.Ok(r) && InWindow(r) && (data != [] ==> pos + |data| <= Edge(r))
    ensures var t := R.Receive(r, pos, data);
            InWindow(t) && Edge(t) == Edge(r) && t.wnd == r.wnd - (t.nxt - r.nxt)
  {
    hide R.TrimFront, R.TrimBack, R.Store, R.Ok, InWindow;
    InWindowFits(r);
    R.TrimFits(r, pos, data);
    var (p, d) := R.TrimFront(pos, data, r.nxt);
    var e := R.TrimBack(p, d, r.nxt + r.Free());
    if e != [] {
      StoreKeepsWindow(r, p, e);
    }
  }

  /** Before the connect message is complete nothing is in order, so data is only
      listed. */
  lemma EarlyKeepsWindow(r: R.Receiver, pos: int, data: seq<byte>)
    requires InWindow(r) && r.nxt < pos && (data != [] ==> pos + |data| <= Edge(r))
    ensures var t := R.Receive(r, pos, data);
            InWindow(t) && Edge(t) == Edge(r) && t.nxt == r.nxt
  {
    hide Overwrite, R.Insert, R.Reach, R.Beyond, Sub;
    var e := R.TrimBack(pos, data, r.nxt + r.Free());
    R.InsertAdds(r.pieces, R.Piece(pos, |e|));
  }

  lemma InWindowFits(r: R.Receiver)
    requires InWindow(r)
    ensures r.held <= |r.cells|
  {
  }

  /** The window is counted down without a check, and bytes are checked against the
      ring's free space only, which may be larger.  So it goes wrong exactly when
      bytes in order reach, within the free space, past the right edge; it then wraps
      around. */
  lemma WindowCountsDown(r: R.Receiver, pos: int, data: seq<byte>)
    requires R.Ok(r) && InWindow(r) && |r.cells| < 0x4000_0000
    ensures var t := R.Receive(r, pos, data);
            && (t.wnd == r.wnd - (t.nxt - r.nxt) <==>
                  (pos <= r.nxt < pos + |data| ==> Min(pos + |data|, r.nxt + r.Free()) <= Edge(r)))
            && (t.wnd == r.wnd - (t.nxt - r.nxt) || t.wnd == r.wnd + MODULUS - (t.nxt - r.nxt))
  {
    hide R.Store, R.Sorted, R.Between, Sub, R.Reach, R.Beyond, Overwrite, R.TrimFront, R.TrimBack;
    TrimInOrder(r, pos, data);
    R.TrimFits(r, pos, data);
    var (p, d) := R.TrimFront(pos, data, r.nxt);
    var e := R.TrimBack(p, d, r.nxt + r.Free());
    if e != [] {
      R.StoreAdvance(r, p, e);
      R.StoreOk(r, p, e);
      CountedDown(r.wnd, R.Store(r, p, e).nxt - r.nxt);
      if p == r.nxt && p + |e| <= Edge(r) {
        StoreKeepsWindow(r, p, e);
      }
    }
  }

  /** What a segment has left for the ring once it is trimmed starts at the position
      wanted exactly if it covers it and there is room. */
  lemma TrimInOrder(r: R.Receiver, pos: int, data: seq<byte>)
    requires r.held <= |r.cells|
    ensures var (p, d) := R.TrimFront(pos, data, r.nxt);
            var e := R.TrimBack(p, d, r.nxt + r.Free());
            && (e != [] && p == r.nxt <==> pos <= r.nxt < pos + |data| && r.Free() > 0)
            && (e != [] && p == r.nxt ==> p + |e| == Min(pos + |data|, r.nxt + r.Free()))
  {
  }

  /** Subtraction without a check wraps around exactly if it goes below 0. */
  lemma CountedDown(w: u32, n: nat)
    requires n <= MODULUS
    ensures Sub(w, n) == if n <= w then w - n else w + MODULUS - n
  {
    AddSubAreWrap(w, n);
    WrapNear(w - n);
  }

  /** The payloads given to the network since index `from`, taken in one after the
      other. */
  function Taken(r: R.Receiver, o: seq<S.Packet>, from: nat): R.Receiver {
    if |o| <= from then r
    else
      var p, u := o[|o| - 1], Taken(r, o[..|o| - 1], from);
      if p.seg.data == [] || u.held > |u.cells| then u else R.Receive(u, p.pos, p.seg.data)
  }

  /** Bytes in order, of any amount that fits the ring, are taken in whole. */
  lemma TakenInOrder(r: R.Receiver, data: seq<byte>)
    requires r.pieces == [] && r.held <= |r.cells| && 0 < |data| <= r.Free()
    ensures var t := R.Receive(r, r.nxt, data);
            && t.nxt == r.nxt + |data| && t.held == r.held + |data| && |t.cells| == |r.cells| && t.pieces == []
            && t.wnd == Sub(r.wnd, |data|)
  {
    hide Overwrite, Sub;
    assert R.TrimFront(r.nxt, data, r.nxt) == (r.nxt, data) && R.TrimBack(r.nxt, data, r.nxt + r.Free()) == data;
    R.ReachStop([], r.nxt + |data|);
  }

  lemma {:induction false} TakenAll(r: R.Receiver, o: seq<S.Packet>, from: nat)
    requires r.pieces == [] && r.held <= |r.cells| && Consecutive(o, from, r.nxt) && |Payload(o, from)| <= r.Free()
    ensures var t, n := Taken(r, o, from), |Payload(o, from)|;
            && t.nxt == r.nxt + n && t.held == r.held + n && |t.cells| == |r.cells| && t.pieces == []
            && t.wnd == Sub(r.wnd, n)
    decreases |o|
  {
    hide R.Receive, Sub;
    if |o| <= from {
      SubNothing(r.wnd);
    } else {
      var q, p := o[..|o| - 1], o[|o| - 1];
      assert Consecutive(q, from, r.nxt) by {
        forall i | from <= i < |q| && q[i].seg.data != [] ensures q[i].pos == r.nxt + |Payload(q[..i], from)| {
          assert q[..i] == o[..i] && q[i] == o[i];
        }
      }
      TakenAll(r, q, from);
      if p.seg.data != [] {
        TakenInOrder(Taken(r, q, from), p.seg.data);
        SubTwice(r.wnd, |Payload(q, from)|, |p.seg.data|);
      }
    }
  }

  lemma SubNothing(w: u32)
    ensures Sub(w, 0) == w
  {
  }

  /** A FIN flush ignores the window.  It finds the receiver up to date, with room
      for everything queued, and the network takes every packet: when the payloads
      have arrived in order, the receiver's window is right exactly if everything
      queued lay within it, and otherwise it has wrapped around 2^32. */
  lemma FlushOverrunsWindow(s: S.Sender, t: S.Sender, n: Network, m: Network, r: R.Receiver)
    requires Flushed(s, t, n, m, FLAG_FIN) && m.failures == n.failures
    requires r.pieces == [] && r.held <= |r.cells| < 0x4000_0000 && r.nxt == Frontier(s)
              && |t.stream.bytes| <= r.nxt + r.Free()
    ensures var u, queued := Taken(r, m.out, |n.out|), |t.stream.bytes| - r.nxt;
            && u.nxt == |t.stream.bytes|
            && (u.wnd == r.wnd - queued <==> queued <= r.wnd)
            && (queued > r.wnd ==> u.wnd == r.wnd + MODULUS - queued)
  {
    hide FinTotal, NoReset, Consecutive, Payload, Taken, Sub;
    var queued := |t.stream.bytes| - r.nxt;
    assert |Payload(m.out, |n.out|)| == queued;
    TakenAll(r, m.out, |n.out|);
    AddSubAreWrap(r.wnd, queued);
    WrapNear(r.wnd - queued);
  }

  /** It happens: two bytes queued, a window of one. */
  lemma FlushOverruns()
    ensures var q, fin := SSegment(1, 2, 0, FLAG_NONE), SSegment(3, 0, 1, FLAG_FIN);
            var s := S.Sender(S.Stream([0, 5, 6], 1, false), 1, 1, [5, 6], [q], 0, 0, false);
            var t := S.Sender(S.Stream([0, 5, 6], 1, true), 1, 4, [5, 6], [q.(xmit := 1), fin], 2, 1, false);
            var o := [S.Packet(1, 1, S.Segment(0, 1, 1, FLAG_NONE, 1, [5, 6], 0, 0)),
                      S.Packet(3, 1, S.Segment(0, 3, 1, FLAG_FIN, 1, [], 0, 0))];
            var r := R.Receiver(1, 1, [0, 0, 0, 0], 0, []);
            && S.Ok(s) && Flushed(s, t, Network([], 0), Network(o, 0), FLAG_FIN)
            && R.Ok(r) && InWindow(r) && Taken(r, o, 0).nxt == 3 && Taken(r, o, 0).wnd == 0xFFFF_FFFF
  {
    var q, fin := SSegment(1, 2, 0, FLAG_NONE), SSegment(3, 0, 1, FLAG_FIN);
    var s := S.Sender(S.Stream([0, 5, 6], 1, false), 1, 1, [5, 6], [q], 0, 0, false);
    var t := S.Sender(S.Stream([0, 5, 6], 1, true), 1, 4, [5, 6], [q.(xmit := 1), fin], 2, 1, false);
    var a := S.Packet(1, 1, S.Segment(0, 1, 1, FLAG_NONE, 1, [5, 6], 0, 0));
    var b := S.Packet(3, 1, S.Segment(0, 3, 1, FLAG_FIN, 1, [], 0, 0));
    var o := [a, b];
    var r := R.Receiver(1, 1, [0, 0, 0, 0], 0, []);
    assert S.Ok(s) by {
      TotalOne(q);
      assert Laid([q], 1, 1);
    }
    assert Payload([], 0) == [] && o[..0] == [] && o[..1] == [a] && [a][..0] == [];
    assert Payload([a], 0) == [5, 6];
    assert Payload(o, 0) == [5, 6];
    assert [0, 5, 6][1..3] == [5, 6];
    assert Flushed(s, t, Network([], 0), Network(o, 0), FLAG_FIN);
    FlushOverrunsWindow(s, t, Network([], 0), Network(o, 0), r);
  }

  /** Skipped positions and reads move the edge to the right only. */
  lemma IgnoredKeepsWindow(r: R.Receiver, pos: int, data: seq<byte>)
    requires InWindow(r)
    ensures InWindow(R.ReceiveIgnored(r, pos, data)) && Edge(r) <= Edge(R.ReceiveIgnored(r, pos, data))
  {
    hide R.TrimFront, R.TrimBack;
  }

  lemma TakesKeepsWindow(r: R.Receiver, t: R.Receiver, got: seq<byte>, now: seq<byte>)
    requires InWindow(r) && Takes(r, t, got, now)
    ensures InWindow(t) && Edge(r) <= Edge(t) && |t.cells| == |r.cells|
  {
    hide Rotate;
  }

  // The announced edge -------------------------------------------------------

  /** The right edge that the header announces: the window rounded down to the
      scale. */
  function AnnouncedEdge(r: R.Receiver, scale: nat): int { r.nxt + WindowField(r.wnd, scale) * Pow2(scale) }

  /** The scale was chosen so that every window of the ring fits 16 bits. */
  ghost predicate Fits(r: R.Receiver, scale: nat) { |r.cells| <= 0xFFFF * Pow2(scale) }

  /** Rounding moves the edge to the left by less than one unit of the scale. */
  lemma AnnouncedEdgeIsNear(r: R.Receiver, scale: nat)
    requires InWindow(r) && Fits(r, scale)
    ensures AnnouncedEdge(r, scale) == Edge(r) - r.wnd % Pow2(scale)
    ensures Edge(r) - Pow2(scale) < AnnouncedEdge(r, scale) <= Edge(r)
  {
    hide Pow2;
    FieldFitsRing(r.wnd, |r.cells|, scale);
    Division(r.wnd, Pow2(scale));
  }

  lemma FieldFitsRing(wnd: u32, capacity: nat, scale: nat)
    requires wnd <= capacity <= 0xFFFF * Pow2(scale)
    ensures WindowField(wnd, scale) == wnd / Pow2(scale)
  {
    hide Pow2;
    Division(wnd, Pow2(scale));
    if wnd / Pow2(scale) > 0xFFFF {
      MulMono(0x1_0000, wnd / Pow2(scale), Pow2(scale));
    }
  }

  lemma Division(w: nat, q: nat)
    requires q > 0
    ensures w == w / q * q + w % q && 0 <= w % q < q
  {
    assert w == q * (w / q) + w % q;
  }

  /** The remainder of a difference. */
  lemma Remainders(w: nat, d: nat, q: nat)
    requires q > 0 && d <= w
    ensures 0 <= d % q < q && 0 <= w % q < q
    ensures (w - d) % q == if d % q <= w % q then w % q - d % q else q + w % q - d % q
  {
    Division(w, q);
    Division(d, q);
    var c := w / q - d / q;
    MulSub(w / q, d / q, q);
    if d % q <= w % q {
      Unique(w - d, c, w % q - d % q, q);
    } else {
      MulSub(c, 1, q);
      Unique(w - d, c - 1, q + w % q - d % q, q);
    }
  }

  lemma MulSub(a: int, b: int, q: int)
    ensures (a - b) * q == a * q - b * q
  {
  }

  lemma Unique(n: nat, c: int, m: nat, q: nat)
    requires m < q && n == c * q + m
    ensures n % q == m
  {
    Division(n, q);
    MulSub(n / q, c, q);
    if n / q > c {
      MulMono(1, n / q - c, q);
    } else if n / q < c {
      MulSub(c, n / q, q);
      MulMono(1, c - n / q, q);
    }
  }

  /** What bytes taken in do to the announced edge.  The receiver's own edge stays;
      the announced one does not fall exactly if the bytes taken in, modulo one unit
      of the scale, are no more than what the window had over; it never falls by a
      whole unit. */
  lemma AnnouncedEdgeMoves(r: R.Receiver, pos: int, data: seq<byte>, scale: nat)
    requires R.Ok(r) && InWindow(r) && Fits(r, scale) && (data != [] ==> pos + |data| <= Edge(r))
    ensures var t := R.Receive(r, pos, data);
            var taken := t.nxt - r.nxt;
            && 0 <= taken <= r.wnd
            && (AnnouncedEdge(r, scale) <= AnnouncedEdge(t, scale) <==> taken % Pow2(scale) <= r.wnd % Pow2(scale))
            && AnnouncedEdge(r, scale) - Pow2(scale) < AnnouncedEdge(t, scale)
  {
    hide R.Receive, R.Ok, InWindow, Pow2, AnnouncedEdge, Fits;
    InWindowFits(r);
    var t := R.Receive(r, pos, data);
    ReceiveKeepsWindow(r, pos, data);
    R.ReceiveOk(r, pos, data);
    CellsStay(r, pos, data);
    FitsStill(r, t, scale);
    AnnouncedEdgeIsNear(r, scale);
    AnnouncedEdgeIsNear(t, scale);
    RoundedDown(Edge(r), r.wnd, t.nxt - r.nxt, Pow2(scale));
  }

  lemma RoundedDown(edge: int, w: nat, d: nat, q: nat)
    requires q > 0 && d <= w
    ensures edge - w % q <= edge - (w - d) % q <==> d % q <= w % q
    ensures edge - w % q - q < edge - (w - d) % q
  {
    Remainders(w, d, q);
  }

  lemma FitsStill(r: R.Receiver, t: R.Receiver, scale: nat)
    requires Fits(r, scale) && |t.cells| == |r.cells|
    ensures Fits(t, scale)
  {
  }

  lemma CellsStay(r: R.Receiver, pos: int, data: seq<byte>)
    requires r.held <= |r.cells|
    ensures |R.Receive(r, pos, data).cells| == |r.cells|
  {
    hide R.Reach, R.Beyond, R.Insert, Sub;
  }

  /** With a scale the announced edge does move to the left: a ring of 65536 bytes,
      which takes a scale of 1, all of it announced; one byte arrives. */
  lemma AnnouncedEdgeFalls()
    ensures var r := R.Receiver(0, 0x1_0000, seq(0x1_0000, _ => 0), 0, []);
            && R.Ok(r) && InWindow(r) && Fits(r, 1)
            && AnnouncedEdge(r, 1) == 0x1_0000 && AnnouncedEdge(R.Receive(r, 0, [7]), 1) == 0xFFFF
  {
    hide R.Receive, InWindow;
    var r := R.Receiver(0, 0x1_0000, seq(0x1_0000, _ => 0), 0, []);
    var d: seq<byte> := [7];
    assert InWindow(r) by { EmptyInWindow(r); }
    assert Pow2(1) == 2;
    TakenInOrder(r, d);
    ReceiveKeepsWindow(r, 0, d);
  }

  lemma EmptyInWindow(r: R.Receiver)
    requires r.held <= |r.cells| && r.wnd <= r.Free() && r.pieces == []
    ensures InWindow(r)
  {
  }

  // Two ends -----------------------------------------------------------------

  /** From sender `x` to receiver `y`: whatever was sent and may be sent is permitted
      by a header that `y` has sent, and no such header permits more than the right
      edge of `y`.  A connect message is always permitted. */
  ghost predicate Flows(x: End, y: End) {
    && InWindow(y.rx) && Fits(y.rx, y.party.rwndScale) && MAX_CONNECT <= Edge(y.rx)
    && Permitted(y, x.tx.una + x.sndWnd) && Permitted(y, x.tx.nxt)
    && (forall i :: 0 <= i < |y.out| ==> Announces(y.out[i], y.party.rwndScale, Edge(y.rx)))
    && (forall i :: 0 <= i < |x.out| ==> SentAsPermitted(x.out[i], y))
  }

  /** The right edge of the window that packet `p` announces. */
  function Announcement(p: S.Packet, scale: nat): int { p.ackPos + p.seg.wnd * Pow2(scale) }

  /** The window packet `p` announces ends left of the edge. */
  ghost predicate Announces(p: S.Packet, scale: nat, edge: int) { Announcement(p, scale) <= edge }

  /** Position `pos` lies within a window that `y` has announced, or within a connect
      message. */
  ghost predicate Permitted(y: End, pos: int) {
    pos <= MAX_CONNECT || exists i :: 0 <= i < |y.out| && pos <= Announcement(y.out[i], y.party.rwndScale)
  }

  ghost predicate SentAsPermitted(p: S.Packet, y: End) {
    p.seg.data != [] ==> Permitted(y, p.pos + |p.seg.data|)
  }

  lemma PermittedIsLeft(x: End, y: End, pos: int)
    requires Flows(x, y) && Permitted(y, pos)
    ensures pos <= Edge(y.rx)
  {
    hide InWindow, Fits, Announcement;
    if pos > MAX_CONNECT {
      var i :| 0 <= i < |y.out| && pos <= Announcement(y.out[i], y.party.rwndScale);
      assert Announces(y.out[i], y.party.rwndScale, Edge(y.rx));
    }
  }

  lemma PermittedBefore(y: End, pos: int, before: int)
    requires Permitted(y, pos) && before <= pos
    ensures Permitted(y, before)
  {
    hide Announcement;
    if before > MAX_CONNECT {
      var i :| 0 <= i < |y.out| && pos <= Announcement(y.out[i], y.party.rwndScale);
      assert before <= Announcement(y.out[i], y.party.rwndScale);
    }
  }

  lemma PermittedStill(y: End, y': End, pos: int)
    requires Permitted(y, pos) && y.out <= y'.out && y'.party.rwndScale == y.party.rwndScale
    ensures Permitted(y', pos)
  {
    hide Announcement;
    if pos > MAX_CONNECT {
      var i :| 0 <= i < |y.out| && pos <= Announcement(y.out[i], y.party.rwndScale);
      assert y'.out[i] == y.out[i];
    }
  }

  lemma SentWithin(a: End, b: End, edge: int, i: nat)
    requires Emits(a, b, edge) && |a.out| <= i < |b.out|
    ensures b.out[i].seg.data != [] ==> b.out[i].pos + |b.out[i].seg.data| <= b.tx.nxt
    ensures Announces(b.out[i], b.party.rwndScale, edge)
  {
    hide S.WellCut, Pow2;
  }

  /** What the sender may send after taking over a window, with the scale of the
      receiver or, before it has heard of it, a smaller one. */
  lemma ScaledFits(p: S.Packet, mine: nat, scale: nat)
    requires mine <= scale
    ensures p.ackPos + ScaledWindow(p.seg.wnd, mine) <= Announcement(p, scale)
  {
    hide Pow2, Wrap;
    WrapBelow(p.seg.wnd * Pow2(mine));
    Pow2Grows(mine, scale);
    MulMono(Pow2(mine), Pow2(scale), p.seg.wnd);
  }

  lemma WrapBelow(n: nat)
    ensures Wrap(n) <= n
  {
  }

  /** The sender moves. */
  lemma SenderFlows(x: End, x': End, y: End, edge: int)
    requires Flows(x, y) && !x'.tx.stream.sealed
    requires Windowed(x, x') && Emits(x, x', edge) && Permitted(y, x'.tx.una + x'.sndWnd)
    ensures Flows(x', y)
  {
    hide Emits, InWindow, Fits, Announces, Permitted;
    EmitsPrefix(x, x', edge);
    PermittedBefore(y, if x'.tx.nxt <= x.tx.nxt then x.tx.nxt else x'.tx.una + x'.sndWnd, x'.tx.nxt);
    forall i | 0 <= i < |x'.out| ensures SentAsPermitted(x'.out[i], y) {
      if i < |x.out| {
        assert x'.out[i] == x.out[i];
      } else {
        SentWithin(x, x', edge, i);
        if x'.out[i].seg.data != [] {
          PermittedBefore(y, x'.tx.nxt, x'.out[i].pos + |x'.out[i].seg.data|);
        }
      }
    }
  }

  /** The receiver moves. */
  lemma ReceiverFlows(x: End, y: End, y': End)
    requires Flows(x, y) && y'.party.rwndScale == y.party.rwndScale && InWindow(y'.rx) && Edge(y.rx) <= Edge(y'.rx)
    requires Emits(y, y', Edge(y'.rx)) && |y'.rx.cells| == |y.rx.cells|
    ensures Flows(x, y')
  {
    hide Emits, InWindow, Pow2, Permitted, Announcement;
    EmitsPrefix(y, y', Edge(y'.rx));
    PermittedStill(y, y', x.tx.una + x.sndWnd);
    PermittedStill(y, y', x.tx.nxt);
    forall i | 0 <= i < |y'.out| ensures Announces(y'.out[i], y'.party.rwndScale, Edge(y'.rx)) {
      if i < |y.out| {
        assert y'.out[i] == y.out[i] && Announces(y.out[i], y.party.rwndScale, Edge(y.rx));
      } else {
        SentWithin(y, y', Edge(y'.rx), i);
      }
    }
    forall i | 0 <= i < |x.out| ensures SentAsPermitted(x.out[i], y') {
      assert SentAsPermitted(x.out[i], y);
      if x.out[i].seg.data != [] {
        PermittedStill(y, y', x.out[i].pos + |x.out[i].seg.data|);
      }
    }
  }

  lemma ActsFlows(x: End, x': End, y: End)
    requires Acts(x, x') && Flows(x, y) && !x'.tx.stream.sealed
    ensures Flows(x', y)
  {
    hide Grows, Emits, Windowed, Takes, InWindow, Fits, Announces, SentAsPermitted;
    SenderFlows(x, x', y, Max(Edge(x.rx), Edge(x'.rx)));
  }

  lemma HearsFlows(x: End, x': End, y: End, p: S.Packet, heard: R.Receiver)
    requires Hears(x, x', p, heard) && p in y.out && Flows(x, y) && !x'.tx.stream.sealed
    requires x'.party.swndScale <= y.party.rwndScale
    ensures Flows(x', y)
  {
    hide Grows, Emits, Windowed, InWindow, Fits, Announces, Announcement, SentAsPermitted, Received, ScaledWindow;
    var i :| 0 <= i < |y.out| && y.out[i] == p;
    ScaledFits(p, x'.party.swndScale, y.party.rwndScale);
    assert Permitted(y, Announcement(p, y.party.rwndScale));
    if x'.tx.una == p.ackPos && x'.sndWnd == ScaledWindow(p.seg.wnd, x'.party.swndScale) {
      PermittedBefore(y, Announcement(p, y.party.rwndScale), x'.tx.una + x'.sndWnd);
    }
    SenderFlows(x, x', y, Max(Edge(heard), Edge(x'.rx)));
  }

  lemma TakingFlows(x: End, y: End, y': End)
    requires Acts(y, y') && Flows(x, y)
    ensures Flows(x, y') && Edge(y.rx) <= Edge(y'.rx)
  {
    hide Flows, Grows, Emits, Windowed, Takes, InWindow;
    FlowsParts(x, y);
    TakesKeepsWindow(y.rx, y'.rx, y.got, y'.got);
    TakesKeepsPosition(y.rx, y'.rx, y.got, y'.got);
    ReceiverFlows(x, y, y');
  }

  lemma FlowsParts(x: End, y: End)
    requires Flows(x, y)
    ensures InWindow(y.rx) && Fits(y.rx, y.party.rwndScale) && MAX_CONNECT <= Edge(y.rx) && Permitted(y, x.tx.nxt)
  {
  }

  lemma ReceivingFlows(x: End, y: End, y': End, p: S.Packet, heard: R.Receiver)
    requires Hears(y, y', p, heard) && p in x.out && Flows(x, y) && Linked(x, y) && !x.tx.stream.sealed
    requires y'.party.rwndScale == y.party.rwndScale
    ensures Flows(x, y') && Edge(y.rx) <= Edge(y'.rx)
  {
    hide Flows, Grows, Emits, Windowed, InWindow, Received, ScaledWindow, Follows, S.WellCut;
    FlowsParts(x, y);
    var i :| 0 <= i < |x.out| && x.out[i] == p;
    if y'.rx != heard {
      InWindowReceived(x, y, p, y'.ignoring, y.ignoring);
    }
    ReceiverFlows(x, y, y');
  }

  /** What `x` has sent lies within the window of `y`. */
  lemma SentIsLeft(x: End, y: End, p: S.Packet)
    requires Flows(x, y) && p in x.out
    ensures p.seg.data != [] ==> p.pos + |p.seg.data| <= Edge(y.rx)
  {
    hide InWindow, Fits, Announces, Permitted;
    var i :| 0 <= i < |x.out| && x.out[i] == p;
    assert SentAsPermitted(x.out[i], y);
    if p.seg.data != [] {
      PermittedIsLeft(x, y, p.pos + |p.seg.data|);
    }
  }

  lemma InWindowReceived(x: End, y: End, p: S.Packet, ignoring: bool, before: bool)
    requires Flows(x, y) && p in x.out && S.WellCut(p, x.tx.stream) && !x.tx.stream.sealed
    requires Follows(y.rx, y.got, before, x.tx.stream) && (before ==> ignoring || p.seg.flags.ctl)
    ensures InWindow(Received(y.rx, p, ignoring)) && Edge(y.rx) <= Edge(Received(y.rx, p, ignoring))
    ensures y.rx.nxt <= Received(y.rx, p, ignoring).nxt && |Received(y.rx, p, ignoring).cells| == |y.rx.cells|
  {
    hide R.Faithful, R.Receive, R.ReceiveIgnored, InWindow, Flows, Wrap, R.Ok;
    FlowsParts(x, y);
    SentIsLeft(x, y, p);
    InWindowFits(y.rx);
    CellsStay(y.rx, p.pos, p.seg.data);
    if p.seg.flags.ctl || ignoring {
      IgnoredKeepsWindow(y.rx, p.pos, p.seg.data);
      IgnoredAdvances(y.rx, p.pos, p.seg.data);
    } else if y.rx.nxt < x.tx.stream.ctl {
      EarlyReceived(x, y, p);
    } else {
      FaithfulOk(y.rx, x.tx.stream.bytes, x.tx.stream.ctl, y.got);
      ReceiveKeepsWindow(y.rx, p.pos, p.seg.data);
      R.ReceiveOk(y.rx, p.pos, p.seg.data);
    }
  }

  lemma EarlyReceived(x: End, y: End, p: S.Packet)
    requires InWindow(y.rx) && (p.seg.data != [] ==> p.pos + |p.seg.data| <= Edge(y.rx)) && S.WellCut(p, x.tx.stream)
    requires y.rx.nxt < x.tx.stream.ctl && !p.seg.flags.ctl
    ensures var t := R.Receive(y.rx, p.pos, p.seg.data);
            InWindow(t) && Edge(t) == Edge(y.rx) && t.nxt == y.rx.nxt
  {
    hide InWindow, Wrap;
    InWindowFits(y.rx);
    if p.seg.data != [] {
      EarlyKeepsWindow(y.rx, p.pos, p.seg.data);
    }
  }

  lemma IgnoredAdvances(r: R.Receiver, pos: int, data: seq<byte>)
    requires r.held <= |r.cells|
    ensures r.nxt <= R.ReceiveIgnored(r, pos, data).nxt && |R.ReceiveIgnored(r, pos, data).cells| == |r.cells|
  {
    hide R.TrimFront, R.TrimBack;
  }

  // Runs ---------------------------------------------------------------------

  /** Packet `p` carries nothing to hear, or a connect message whole, one that names
      `scale` if its sender supports window scaling. */
  ghost predicate Whole(p: S.Packet, wndScaling: bool, scale: byte) {
    p.seg.flags.ctl && p.seg.data != [] ==> exists finAck :: p.seg.data == ConnectMessage(wndScaling, scale, finAck)
  }

  /** A run from two new sockets in which `a` has not yet marked the end of its stream
      and no connect message was cut into pieces.  The scale of `b` is the right one
      for its ring, and `a` supports window scaling if `b` needs it. */
  ghost predicate OpenRun(r: seq<Pair>) {
    && Run(r) && MAX_CONNECT <= |r[0].b.rx.cells| && Fits(r[0].b.rx, r[0].b.party.rwndScale)
    && (r[0].a.party.wndScaling || r[0].b.party.rwndScale == 0)
    && forall i :: 0 <= i < |r| ==>
         && !r[i].a.tx.stream.sealed
         && (forall p :: p in r[i].a.out ==> exists scale :: Whole(p, r[0].a.party.wndScaling, scale))
         && (forall p :: p in r[i].b.out ==> Whole(p, r[0].b.party.wndScaling, r[0].b.party.rwndScale))
  }

  /** What the options are in such a run: as at first, but that `a` comes to know the
      scale of `b`. */
  ghost predicate Agree(p: Pair, o: Pair) {
    && p.a.party.wndScaling == o.a.party.wndScaling && p.b.party.wndScaling == o.b.party.wndScaling
    && p.b.party.rwndScale == o.b.party.rwndScale
    && (p.a.party.swndScale == 0 || p.a.party.swndScale == o.b.party.rwndScale)
  }

  lemma HeardWhole(p: Party, q: S.Packet, wndScaling: bool, scale: byte)
    requires q.seg.flags.ctl && q.seg.data != [] && Whole(q, wndScaling, scale)
    ensures var n := p.Hears(q.seg.data);
            && n.wndScaling == p.wndScaling
            && (wndScaling || p.rwndScale == 0 ==> n.rwndScale == p.rwndScale)
            && (n.swndScale == 0 || n.swndScale == p.swndScale || (wndScaling && n.swndScale == scale))
  {
    hide ConnectMessage;
    var finAck :| q.seg.data == ConnectMessage(wndScaling, scale, finAck);
    ConnectRoundTrip(Party(wndScaling, scale, 0, finAck), Negotiation(p.swndScale, p.finAck, false, false, false));
  }

  lemma StepAgrees(p: Pair, q: Pair, o: Pair)
    requires Step(p, q) && Agree(p, o) && (o.a.party.wndScaling || o.b.party.rwndScale == 0)
    requires forall k :: k in p.a.out ==> exists scale :: Whole(k, o.a.party.wndScaling, scale)
    requires forall k :: k in p.b.out ==> Whole(k, o.b.party.wndScaling, o.b.party.rwndScale)
    ensures Agree(q, o)
  {
    hide Whole, Party.Hears, Grows, Windowed, Takes, Emits, SameWindow, Acknowledges, Received, Resized, Near,
      ConnectsInTime;
    if q.b == p.b && exists k, heard :: Deliverable(p.a, p.b, k) && Hears(p.a, q.a, k, heard) {
      var k, heard :| Deliverable(p.a, p.b, k) && Hears(p.a, q.a, k, heard);
      if k.seg.flags.ctl && k.seg.data != [] {
        HeardWhole(p.a.party, k, o.b.party.wndScaling, o.b.party.rwndScale);
      }
    } else if q.a == p.a && exists k, heard :: Deliverable(p.b, p.a, k) && Hears(p.b, q.b, k, heard) {
      var k, heard :| Deliverable(p.b, p.a, k) && Hears(p.b, q.b, k, heard);
      if k.seg.flags.ctl && k.seg.data != [] {
        var scale :| Whole(k, o.a.party.wndScaling, scale);
        HeardWhole(p.b.party, k, o.a.party.wndScaling, scale);
      }
    }
  }

  /** The handshake keeps the scale of `b`, and `a` uses that one or none. */
  lemma {:induction false} RunAgrees(r: seq<Pair>, i: nat)
    requires OpenRun(r) && i < |r|
    ensures Agree(r[i], r[0])
  {
    hide Step, Whole;
    if i > 0 {
      RunAgrees(r, i - 1);
      assert Step(r[i - 1], r[i - 1 + 1]);
      StepAgrees(r[i - 1], r[i], r[0]);
    }
  }

  lemma NewFlows(x: End, y: End)
    requires New(x) && New(y) && MAX_CONNECT <= |y.rx.cells| && Fits(y.rx, y.party.rwndScale)
    ensures Flows(x, y)
  {
  }

  lemma StepFlows(p: Pair, q: Pair)
    requires Step(p, q) && Linked(p.a, p.b) && Linked(p.b, p.a) && Flows(p.a, p.b)
    requires q.b.party.rwndScale == p.b.party.rwndScale && q.a.party.swndScale <= p.b.party.rwndScale
    requires !p.a.tx.stream.sealed && !q.a.tx.stream.sealed
    ensures Flows(q.a, q.b) && Edge(p.b.rx) <= Edge(q.b.rx)
  {
    hide Linked, Acts, Hears, Flows, Near, ConnectsInTime;
    if Acts(p.a, q.a) && q.b == p.b {
      ActsFlows(p.a, q.a, p.b);
    } else if Acts(p.b, q.b) && q.a == p.a {
      TakingFlows(p.a, p.b, q.b);
    } else if q.b == p.b && exists k, heard :: Deliverable(p.a, p.b, k) && Hears(p.a, q.a, k, heard) {
      var k, heard :| Deliverable(p.a, p.b, k) && Hears(p.a, q.a, k, heard);
      HearsFlows(p.a, q.a, p.b, k, heard);
    } else {
      var k, heard :| Deliverable(p.b, p.a, k) && Hears(p.b, q.b, k, heard);
      ReceivingFlows(p.a, p.b, q.b, k, heard);
    }
  }

  /** Flow control, in every state of every such run.  The sender has sent nothing
      past the largest window that a header of the receiver has announced, or past a
      connect message; no announcement reaches past the receiver's own edge; that
      edge never moves left; the window is never more than the free space, and so
      never negative.  The announced edge may move left, but never by a whole unit of
      the scale. */
  lemma {:induction false} FlowSafety(r: seq<Pair>, i: nat)
    requires OpenRun(r) && i < |r|
    ensures Flows(r[i].a, r[i].b)
    ensures Permitted(r[i].b, r[i].a.tx.nxt) && r[i].a.tx.nxt <= Edge(r[i].b.rx) && r[i].b.rx.wnd <= r[i].b.rx.Free()
    ensures forall j :: 0 <= j <= i ==>
              && Edge(r[j].b.rx) <= Edge(r[i].b.rx)
              && AnnouncedEdge(r[j].b.rx, r[j].b.party.rwndScale) - Pow2(r[i].b.party.rwndScale)
                 < AnnouncedEdge(r[i].b.rx, r[i].b.party.rwndScale)
  {
    hide Linked, Step, Flows, New, Permitted, AnnouncedEdge, Fits, Pow2, Whole;
    RunAgrees(r, i);
    if i == 0 {
      NewFlows(r[0].a, r[0].b);
    } else {
      FlowSafety(r, i - 1);
      StreamSafety(r, i - 1);
      assert Step(r[i - 1], r[i - 1 + 1]);
      RunAgrees(r, i - 1);
      RunAgrees(r, i);
      StepFlows(r[i - 1], r[i]);
    }
    FlowsMeans(r[i].a, r[i].b);
    forall j | 0 <= j <= i
      ensures Edge(r[j].b.rx) <= Edge(r[i].b.rx)
      ensures AnnouncedEdge(r[j].b.rx, r[j].b.party.rwndScale) - Pow2(r[i].b.party.rwndScale)
                < AnnouncedEdge(r[i].b.rx, r[i].b.party.rwndScale)
    {
      if j < i {
        FlowSafety(r, j);
        RunAgrees(r, j);
        FlowsMeans(r[j].a, r[j].b);
      }
    }
  }

  lemma FlowsMeans(x: End, y: End)
    requires Flows(x, y)
    ensures Permitted(y, x.tx.nxt) && x.tx.nxt <= Edge(y.rx) && y.rx.wnd <= y.rx.Free()
    ensures Edge(y.rx) - Pow2(y.party.rwndScale) < AnnouncedEdge(y.rx, y.party.rwndScale) <= Edge(y.rx)
  {
    hide AnnouncedEdge, Announces, SentAsPermitted, Pow2, Fits, Permitted;
    FlowsParts(x, y);
    PermittedIsLeft(x, y, x.tx.nxt);
    AnnouncedEdgeIsNear(y.rx, y.party.rwndScale);
  }

  /** The 16-bit window field loses nothing but the bits below the scale: the size
      of the receive buffer was chosen so that the shifted window fits. */
  lemma FieldIsExact(rx: Incoming, capacity: nat, wnd: u32)
    requires Scaled(rx, capacity) && wnd <= capacity
    ensures WindowField(wnd, rx.rwndScale) == wnd / Pow2(rx.rwndScale)
    ensures var (field, unit) := (WindowField(wnd, rx.rwndScale), Pow2(rx.rwndScale));
            field * unit <= wnd < (field + 1) * unit
  {
    hide Pow2;
    FieldFitsRing(wnd, capacity, rx.rwndScale);
    QuotientBounds(wnd, Pow2(rx.rwndScale));
  }

  lemma QuotientBounds(w: nat, q: nat)
    requires q > 0
    ensures w / q * q <= w < (w / q + 1) * q
  {
    assert w == q * (w / q) + w % q;
  }
}
