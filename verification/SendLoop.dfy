/** The send loop, told with unbounded stream positions: what waits, what one
    turn of the loop does, what any number of turns amounts to. */
module SendLoop {
  import opened Seq32
  import opened Segments
  import S = Sending

  const MAX_PACKET := 65535
  const MIN_PACKET := 296
  const HEADER_SIZE := 24
  const PACKET_OVERHEAD := 116
  const MIN_RTO := 250
  const DEF_RTO := 1000
  const MAX_RTO := 60000
  const DEFAULT_TIMEOUT := 4000
  const CLOSED_TIMEOUT := 60000
  const TIME_WAIT_TIMEOUT := 1
  const DEFAULT_RCV_BUF_SIZE := 61440
  const DEFAULT_SND_BUF_SIZE := 92160
  const MAX_UNACKED := 0x400_0000 // the 64 MiB of the assertion in transmit()

  const PACKET_MAXIMUMS: seq<nat> := [65535, 32000, 17914, 8166, 4352, 2002, 1492, 1006, 508, 296, 0]

  /** Maximum segment size, position in the MTU table, largest segment sent,
      advised MTU, and the congestion window, which follows the segment size. */
  datatype Sizing = Sizing(mss: u32, msslevel: nat, largest: nat, mtuAdvise: nat, cwnd: u32)

  /** What the socket has given to the network, and how often it was refused. */
  datatype Network = Network(out: seq<S.Packet>, failures: nat)

  /** Bounds that every step keeps.  The congestion window holds a segment, unless
      it has wrapped around 2^32 or a resize lowered the slow start threshold in
      the middle of a recovery. */
  ghost predicate Bounded(size: Sizing, strained: bool) {
    && 180 <= size.mss <= 65419
    && size.msslevel <= 9
    && MIN_PACKET <= size.mtuAdvise <= MAX_PACKET
    && (size.mss == 180 || PACKET_MAXIMUMS[size.msslevel] - PACKET_OVERHEAD <= size.mss)
    && (strained || size.mss <= size.cwnd)
  }

  /** Sizes after an MTU search or a restart of the congestion window, if there was
      one. */
  ghost predicate Searched(a: Sizing, b: Sizing) {
    && b.largest == a.largest && b.mtuAdvise == a.mtuAdvise && a.msslevel <= b.msslevel && b.mss <= a.mss
    && ((b.mss == a.mss && b.cwnd == a.cwnd) || b.cwnd == b.mss || b.cwnd == 2 * b.mss)
  }

  /** A packet sent while `ack` is the next position wanted, `field` the window
      announced and [una, nxt) in flight. */
  ghost predicate Fresh(p: S.Packet, stream: S.Stream, ack: int, field: nat, una: int, nxt: int) {
    && S.WellCut(p, stream)
    && p.ackPos == ack && p.seg.ack == Wrap(ack) && p.seg.wnd == field
    && (p.seg.data != [] ==> una <= p.pos && p.pos + |p.seg.data| <= nxt)
  }

  /** A packet made of the first queued segment, or of the front of it. */
  ghost predicate OfHead(p: S.Packet, s: S.Sender) {
    && s.slist != [] && S.WellCut(p, s.stream)
    && p.seg.flags == s.slist[0].flags && |p.seg.data| <= s.slist[0].len
    && (s.slist[0].len > 0 ==> p.seg.data != [] && p.pos == s.una)
  }

  /** Every packet from index `from` on is such a packet. */
  ghost predicate AllFresh(o: seq<S.Packet>, from: nat, stream: S.Stream, ack: int, field: nat, una: int, nxt: int) {
    forall i :: from <= i < |o| ==> Fresh(o[i], stream, ack, field, una, nxt)
  }

  ghost predicate NoReset(q: seq<SSegment>) {
    forall i :: 0 <= i < |q| ==> !q[i].flags.rst
  }

  /** The stream, what is kept and what is acknowledged stay; `nxt` may grow. */
  ghost predicate Later(s: S.Sender, t: S.Sender) {
    && t.stream == s.stream && t.una == s.una && t.kept == s.kept && t.finAcked == s.finAcked
    && s.nxt <= t.nxt && s.fins <= t.fins
    && (NoReset(s.slist) ==> NoReset(t.slist))
  }

  /** Where first transmissions have come in the stream. */
  function Frontier(s: S.Sender): int { s.nxt - s.fins }

  function Waiting(s: S.Sender): seq<SSegment>
    requires s.k <= |s.slist|
  {
    s.slist[s.k..]
  }

  function FinCount(w: seq<SSegment>): nat {
    if w == [] then 0 else (if w[0].flags.fin then 1 else 0) + FinCount(w[1..])
  }

  /** FINs sent and FINs waiting. */
  function FinTotal(s: S.Sender): nat
    requires s.k <= |s.slist|
  {
    s.fins + FinCount(Waiting(s))
  }

  ghost predicate KeepsFins(s: S.Sender, t: S.Sender) {
    s.k <= |s.slist| && t.k <= |t.slist| && FinTotal(t) == FinTotal(s)
  }

  ghost predicate AllReset(w: seq<SSegment>) {
    forall i :: 0 <= i < |w| ==> w[i].flags.rst
  }

  /** Fewer bytes never sent, or as many in fewer segments. */
  ghost predicate Progress(s: S.Sender, t: S.Sender) {
    && s.k <= |s.slist| && t.k <= |t.slist|
    && (Total(Waiting(t)) < Total(Waiting(s))
        || (Total(Waiting(t)) == Total(Waiting(s)) && |Waiting(t)| < |Waiting(s)|))
    && (AllReset(Waiting(s)) ==> AllReset(Waiting(t)))
    && FinTotal(t) == FinTotal(s)
  }

  /** The payloads of the packets from index `from` on, in order. */
  function Payload(o: seq<S.Packet>, from: nat): seq<byte> {
    if |o| <= from then [] else Payload(o[..|o| - 1], from) + o[|o| - 1].seg.data
  }

  /** The widest congestion window that a call can see: the one it finds, or one of
      the two segments that follow an MTU search, widened by limited transmit. */
  function WidestWindow(size: Sizing, dupAcks: byte): nat { Max(CongestionWindow(size, dupAcks), 4 * size.mss) }

  lemma SearchedWindow(a: Sizing, b: Sizing, dupAcks: byte)
    requires Searched(a, b) && a.mss <= MAX_PACKET
    ensures CongestionWindow(b, dupAcks) <= WidestWindow(a, dupAcks)
  {
    hide Wrap;
    if dupAcks == 1 || dupAcks == 2 {
      AddSubAreWrap(b.cwnd, dupAcks * b.mss);
      if b.cwnd == b.mss || b.cwnd == 2 * b.mss {
        WrapNear(b.cwnd + dupAcks * b.mss);
      }
    }
  }

  /** The congestion window, widened by limited transmit. */
  function CongestionWindow(size: Sizing, dupAcks: byte): u32 {
    if dupAcks == 1 || dupAcks == 2 then Add(size.cwnd, dupAcks * size.mss) else size.cwnd
  }

  /** The packets handed over since `a`, all of them fresh. */
  ghost predicate Delivered(a: Network, b: Network, s: S.Sender, ack: int, field: nat) {
    && a.out <= b.out && a.failures <= b.failures
    && AllFresh(b.out, |a.out|, s.stream, ack, field, s.una, s.nxt)
  }

  /** A packet that continues the stream where the frontier was. */
  ghost predicate InOrder(s: S.Sender, t: S.Sender, p: S.Packet, flags: Flags) {
    && 0 <= Frontier(s) <= Frontier(t) <= |s.stream.bytes|
    && p.seg.data == s.stream.bytes[Frontier(s)..Frontier(t)] && (p.seg.data != [] ==> p.pos == Frontier(s))
    && p.seg.flags == flags
    && s.k < |s.slist| && t.k <= |t.slist|
    && (Waiting(t) == [] || Waiting(t)[|Waiting(t)| - 1].flags == s.slist[|s.slist| - 1].flags)
    && (Waiting(t) == [] ==> flags == s.slist[|s.slist| - 1].flags)
  }

  /** The payloads sent since index `from` continue the stream where the frontier
      was in `s`, each at its own position. */
  ghost predicate FlushedInOrder(s: S.Sender, t: S.Sender, o: seq<S.Packet>, from: nat) {
    && 0 <= Frontier(s) <= Frontier(t) <= |s.stream.bytes|
    && Payload(o, from) == s.stream.bytes[Frontier(s)..Frontier(t)]
    && Consecutive(o, from, Frontier(s))
  }

  /** Payloads one after the other from position `pos` on. */
  ghost predicate Consecutive(o: seq<S.Packet>, from: nat, pos: int) {
    forall i :: from <= i < |o| && o[i].seg.data != [] ==> o[i].pos == pos + |Payload(o[..i], from)|
  }

  lemma ConsecutiveMore(o: seq<S.Packet>, p: seq<S.Packet>, from: nat, pos: int)
    requires Consecutive(o, from, pos) && from <= |o| && |p| == |o| + 1 && o <= p
    requires p[|o|].seg.data != [] ==> p[|o|].pos == pos + |Payload(o, from)|
    ensures Consecutive(p, from, pos)
  {
    hide Payload;
    forall i | from <= i < |p| && p[i].seg.data != [] ensures p[i].pos == pos + |Payload(p[..i], from)| {
      if i < |o| {
        assert p[..i] == o[..i] && p[i] == o[i];
      } else {
        assert p[..i] == o;
      }
    }
  }

  /** Once nothing waits, the last packet is of the kind of the last segment. */
  ghost predicate LastOut(s: S.Sender, t: S.Sender, o: seq<S.Packet>, from: nat) {
    s.k < |s.slist| ==>
      if t.k < |t.slist| then t.slist[|t.slist| - 1].flags == s.slist[|s.slist| - 1].flags
      else |o| > from && o[|o| - 1].seg.flags == s.slist[|s.slist| - 1].flags
  }

  /** The segments never transmitted, once segment `i` has been. */
  lemma MarkedRest(q: seq<SSegment>, k: nat, i: nat)
    requires SentPrefix(q, k) && i < |q| && (i == 0 || i == k)
    ensures var t := q[i := q[i].(xmit := q[i].xmit + 1)];
            if q[i].xmit == 0 then i == k && q[k..] != [] && q[k..][0] == q[i] && t[k + 1..] == q[k..][1..]
                else t[k..] == q[k..]
  {
  }

  /** What one turn of the send loop does. */
  ghost predicate Turned(s: S.Sender, t: S.Sender, n: Network, m: Network, z: Sizing, y: Sizing,
                         limit: nat, flush: bool, ok: bool, ack: int, field: nat)
  {
    && s.k < |s.slist| && t.k <= |t.slist|
    && Later(s, t) && Delivered(n, m, t, ack, field) && Searched(z, y)
    && (!flush ==> t.fins == s.fins && t.nxt <= s.nxt + limit)
    && (m.failures == n.failures ==> y == z)
    && (if ok then
          && Progress(s, t) && |m.out| == |n.out| + 1 && InOrder(s, t, m.out[|n.out|], s.slist[s.k].flags)
        else
          && m.out == n.out && m.failures > n.failures && s.slist[s.k].len > 0
          && t.nxt == s.nxt && t.fins == s.fins && t.k < |t.slist|
          && Total(Waiting(t)) == Total(Waiting(s)) && (AllReset(Waiting(s)) ==> AllReset(Waiting(t)))
          && FinTotal(t) == FinTotal(s)
          && t.slist[|t.slist| - 1].flags == s.slist[|s.slist| - 1].flags)
  }

  lemma TurnSent(s: S.Sender, cut: S.Sender, n: Network, m: Network, z: Sizing, y: Sizing,
                 limit: nat, flush: bool, len: nat, ack: int, field: nat)
    requires S.Ok(s) && S.Ok(cut) && s.k < |s.slist| && (s.slist[s.k].len > limit && !flush ==> limit > 0)
    requires cut == if s.slist[s.k].len > limit && !flush then S.Cut(s, s.k, limit) else s
    requires cut.k == s.k < |cut.slist| && len <= cut.slist[s.k].len && (cut.slist[s.k].len > 0 ==> len > 0)
    requires !flush ==> s.slist[s.k].len > 0
    requires |m.out| == |n.out| + 1 && n.out <= m.out && n.failures <= m.failures
    requires |m.out[|n.out|].seg.data| == len && m.out[|n.out|].seg.flags == cut.slist[s.k].flags
    requires var t := S.Transmitted(cut, s.k, len);
             && Fresh(m.out[|n.out|], t.stream, ack, field, t.una, t.nxt)
             && (len > 0 ==> m.out[|n.out|].pos + len == t.nxt)
    requires Searched(z, y) && (m.failures == n.failures ==> y == z)
    ensures Turned(s, S.Transmitted(cut, s.k, len), n, m, z, y, limit, flush, true, ack, field)
  {
    hide S.Ok, S.Transmitted, S.Cut, Total, Progress, InOrder;
    var most := if flush then s.slist[s.k].len else limit;
    var front := NextWaiting(s, cut, most, len);
    NextSent(s, cut, most, len, m.out[|n.out|]);
  }

  lemma TurnFailed(s: S.Sender, cut: S.Sender, n: Network, m: Network, z: Sizing, y: Sizing,
                   limit: nat, flush: bool, ack: int, field: nat)
    requires s.k < |s.slist| && !s.slist[s.k].flags.fin
    requires s.k < |s.slist| && s.slist[s.k].len > 0 && (s.slist[s.k].len > limit && !flush ==> limit > 0)
    requires cut == if s.slist[s.k].len > limit && !flush then S.Cut(s, s.k, limit) else s
    requires s.slist[s.k].xmit == 0
    requires m.out == n.out && m.failures > n.failures && Searched(z, y)
    ensures Turned(s, cut, n, m, z, y, limit, flush, false, ack, field)
  {
    hide Total, FinCount, NoReset, S.Cut;
    if s.slist[s.k].len > limit && !flush {
      CutNoReset(s, s.k, limit);
      CutStays(s, limit);
    }
  }

  /** A cut of the first waiting segment changes neither how many bytes and FINs wait
      nor of what kind the last segment is. */
  lemma CutStays(s: S.Sender, n: nat)
    requires s.k < |s.slist| && s.slist[s.k].xmit == 0 && !s.slist[s.k].flags.fin && n <= s.slist[s.k].len
    ensures var t := S.Cut(s, s.k, n);
            && t == s.(slist := t.slist) && t.k < |t.slist|
            && Total(Waiting(t)) == Total(Waiting(s)) && FinTotal(t) == FinTotal(s)
            && (AllReset(Waiting(s)) ==> AllReset(Waiting(t)))
            && t.slist[|t.slist| - 1].flags == s.slist[|s.slist| - 1].flags
  {
    hide Total, FinCount, Split, Rest;
    var g, t := s.slist[s.k], S.Cut(s, s.k, n);
    var rest := s.slist[s.k + 1..];
    var a, b := g.(len := n), Rest(g, n);
    S.SplitAt(s.slist, s.k, n);
    assert Waiting(s) == [g] + rest;
    assert Waiting(t) == [a] + ([b] + rest);
    assert b.len == g.len - n && b.flags == g.flags by { RestIs(g, n); }
    TotalCons(g, rest);
    TotalCons(b, rest);
    TotalCons(a, [b] + rest);
    FinCountConcat([g], rest);
    FinCountConcat([b], rest);
    FinCountConcat([a], [b] + rest);
    FinCountOne(g);
    FinCountOne(a);
    FinCountOne(b);
    CutResets(g, a, b, rest);
  }

  lemma RestIs(g: SSegment, n: nat)
    requires n <= g.len
    ensures Rest(g, n).len == g.len - n && Rest(g, n).flags == g.flags
  {
  }

  lemma CutResets(g: SSegment, a: SSegment, b: SSegment, rest: seq<SSegment>)
    requires a.flags == g.flags && b.flags == g.flags
    ensures AllReset([g] + rest) ==> AllReset([a] + ([b] + rest))
  {
    forall i | AllReset([g] + rest) && 0 <= i < |[a] + ([b] + rest)| ensures ([a] + ([b] + rest))[i].flags.rst {
      assert ([g] + rest)[if i < 1 then 0 else i - 1].flags.rst;
    }
  }

  /** What sending does, from `s`, `n` and `z` on: packets cut from the stream in
      the order of the stream, new bytes within the peer's window and within the
      congestion window; an MTU search on the way may replace that by one of two
      smaller segments. */
  ghost predicate SentSince(s: S.Sender, t: S.Sender, n: Network, m: Network, z: Sizing, y: Sizing,
                            wnd: u32, dupAcks: byte, flush: bool, ack: int, field: nat)
  {
    && Later(s, t) && Delivered(n, m, t, ack, field) && Searched(z, y)
    && FlushedInOrder(s, t, m.out, |n.out|) && (flush ==> LastOut(s, t, m.out, |n.out|))
    && (!flush ==> t.fins == s.fins && t.nxt <= Max(s.nxt, t.una + Min(wnd, WidestWindow(z, dupAcks))))
    && (m.failures == n.failures ==>
          && y == z.(cwnd := y.cwnd) && (y.cwnd == z.cwnd || y.cwnd == y.mss)
          && (!flush ==> t.nxt <= Max(s.nxt, t.una + CongestionWindow(y, dupAcks))))
  }

  lemma SentParts(s: S.Sender, t: S.Sender, n: Network, m: Network, z: Sizing, y: Sizing,
                  wnd: u32, dupAcks: byte, flush: bool, ack: int, field: nat)
    requires SentSince(s, t, n, m, z, y, wnd, dupAcks, flush, ack, field)
    ensures Later(s, t) && Delivered(n, m, t, ack, field) && Searched(z, y)
    ensures t.stream == s.stream && t.una == s.una && s.nxt <= t.nxt
    ensures !flush ==> t.fins == s.fins && t.nxt <= Max(s.nxt, t.una + wnd)
  {
  }

  lemma NothingSentYet(s: S.Sender, n: Network, z: Sizing, y: Sizing, wnd: u32, dupAcks: byte, flush: bool, ack: int,
                       field: nat)
    requires S.Ok(s)
    requires y == z || y == z.(cwnd := z.mss)
    ensures SentSince(s, s, n, n, z, y, wnd, dupAcks, flush, ack, field)
  {
    hide S.Ok, Total, CongestionWindow, WidestWindow;
    FrontierInStream(s);
  }

  /** One more turn. */
  lemma SentMore(s: S.Sender, t: S.Sender, u: S.Sender, a: Network, b: Network, c: Network, x: Sizing, y: Sizing,
                 z: Sizing,
                 wnd: u32, dupAcks: byte, limit: nat, flush: bool, ok: bool, ack: int, field: nat)
    requires SentSince(s, t, a, b, x, y, wnd, dupAcks, flush, ack, field)
    requires Turned(t, u, b, c, y, z, limit, flush, ok, ack, field)
    requires !flush ==> t.nxt + limit <= t.una + Min(wnd, CongestionWindow(y, dupAcks))
    requires x.mss <= MAX_PACKET
    ensures SentSince(s, u, a, c, x, z, wnd, dupAcks, flush, ack, field)
    ensures Later(t, u) && (!flush ==> u.fins == t.fins) && (ok || a.failures < c.failures)
    ensures b.out <= c.out && b.failures <= c.failures
              && (if ok then |c.out| > |b.out| else c.out == b.out && c.failures > b.failures)
    ensures ok ==> Progress(t, u)
    ensures !ok ==>
              u.k <= |u.slist| && Total(Waiting(u)) == Total(Waiting(t))
              && (AllReset(Waiting(t)) ==> AllReset(Waiting(u)))
    ensures t.k <= |t.slist| && u.k <= |u.slist| && FinTotal(u) == FinTotal(t)
    ensures !ok ==> t.k < |t.slist| && t.slist[t.k].len > 0
  {
    hide CongestionWindow, WidestWindow, Delivered, Total, FinCount, Payload, Consecutive, InOrder;
    SearchedWindow(x, y, dupAcks);
    Onward(s, t, u, a, b, c, ack, field);
    FailuresGrow(a, b, t, ack, field);
    FailuresGrow(b, c, u, ack, field);
    if ok {
      MoreFlushed(s, t, u, b.out, c.out, |a.out|, t.slist[t.k].flags, flush);
    }
  }

  /** A packet without payload more. */
  lemma SentEmpty(s: S.Sender, t: S.Sender, a: Network, b: Network, c: Network, z: Sizing, y: Sizing,
                  wnd: u32, dupAcks: byte, ack: int, field: nat)
    requires SentSince(s, t, a, b, z, y, wnd, dupAcks, false, ack, field)
    requires Delivered(b, c, t, ack, field) && |c.out| == |b.out| + 1 && c.out[|b.out|].seg.data == []
              && c.failures == b.failures
    ensures SentSince(s, t, a, c, z, y, wnd, dupAcks, false, ack, field)
  {
    hide CongestionWindow, WidestWindow, Consecutive;
    Onward(s, t, t, a, b, c, ack, field);
    ConsecutiveMore(b.out, c.out, |a.out|, Frontier(s));
    assert c.out[..|c.out| - 1] == b.out;
  }

  lemma FailuresGrow(a: Network, b: Network, s: S.Sender, ack: int, field: nat)
    requires Delivered(a, b, s, ack, field)
    ensures a.failures <= b.failures && a.out <= b.out
  {
  }

  lemma MoreFlushed(s: S.Sender, t: S.Sender, u: S.Sender, o: seq<S.Packet>, p: seq<S.Packet>, from: nat, flags: Flags,
                    flush: bool)
    requires FlushedInOrder(s, t, o, from) && (flush ==> LastOut(s, t, o, from)) && t.k <= |t.slist|
    requires from <= |o| && |p| == |o| + 1 && o <= p
    requires t.stream == s.stream && InOrder(t, u, p[|o|], flags)
    ensures FlushedInOrder(s, u, p, from) && (flush ==> LastOut(s, u, p, from))
  {
    hide Consecutive;
    assert p[..|p| - 1] == o;
    ConsecutiveMore(o, p, from, Frontier(s));
    var b := s.stream.bytes;
    assert b[Frontier(s)..Frontier(u)] == b[Frontier(s)..Frontier(t)] + b[Frontier(t)..Frontier(u)];
    if u.k < |u.slist| {
      assert Waiting(u)[|Waiting(u)| - 1] == u.slist[|u.slist| - 1];
    }
  }

  /** Two stretches of sending are one. */
  lemma Onward(s: S.Sender, t: S.Sender, u: S.Sender, a: Network, b: Network, c: Network, ack: int, field: nat)
    requires Later(s, t) && Later(t, u)
    requires Delivered(a, b, t, ack, field) && Delivered(b, c, u, ack, field)
    ensures Later(s, u) && Delivered(a, c, u, ack, field)
  {
    forall i | |a.out| <= i < |c.out| ensures Fresh(c.out[i], u.stream, ack, field, u.una, u.nxt) {
      if i < |b.out| {
        assert c.out[i] == b.out[i];
        assert Fresh(b.out[i], t.stream, ack, field, t.una, t.nxt);
      }
    }
  }

  /** Segments without bytes. */
  lemma EmptyHead(w: seq<SSegment>)
    requires w != []
    ensures w[0].len <= Total(w)
  {
  }

  /** How much is in flight, and that what is not waits. */
  lemma BytesInFlight(s: S.Sender)
    requires S.Ok(s) && |s.kept| <= MAX_UNACKED && s.fins < 0x1000_0000
    ensures Sub(Wrap(s.nxt), Wrap(s.una)) == s.nxt - s.una
    ensures s.nxt - s.una < |s.kept| ==> !s.finAcked && s.k < |s.slist| && s.slist[s.k].len > 0
  {
    hide Laid, Total, SentPrefix, S.OnlyPlain, S.OnlyLastEmpty, S.ResetsAt, Wrap, Sub;
    TotalSplit(s.slist, s.k);
    WrapInjective(s.nxt, s.una);
    if s.nxt - s.una < |s.kept| {
      HeadNotEmpty(Waiting(s));
    }
  }

  /** What `queue` is asked to append: data while the stream is open, the connect
      message first, FIN and RST empty. */
  ghost predicate Queueable(s: S.Sender, flags: Flags, len: nat, capacity: nat) {
    && flags in {FLAG_NONE, FLAG_FIN, FLAG_CTL, FLAG_RST}
    && (flags == FLAG_NONE ==> !s.stream.sealed)
    && (flags.ctl ==> s.stream.bytes == [] && s.kept == [] && s.slist == [] && 0 < len <= capacity && !s.stream.sealed)
    && (flags.fin || flags.rst ==> len == 0)
    && (flags.fin ==> !s.finAcked)
  }

  /** Queueing extends what waits. */
  lemma QueuedWaiting(s: S.Sender, data: seq<byte>, flags: Flags)
    requires S.Ok(s)
    ensures var t := S.Enqueue(s, data, flags);
            && t.k == s.k <= |s.slist| <= |t.slist|
            && t.slist == Appended(s.slist, Wrap(s.una + |s.kept|), |data|, flags)
            && (Joins(s.slist, flags) ==>
                  && s.k < |s.slist|
                  && var last := s.slist[|s.slist| - 1];
                  t.slist[t.k..] == s.slist[s.k..][|s.slist| - s.k - 1 := last.(len := last.len + |data|)])
            && (!Joins(s.slist, flags) ==>
                  t.slist[t.k..] == s.slist[s.k..] + [SSegment(Wrap(s.una + |s.kept|), |data|, 0, flags)])
  {
  }

  lemma EnqueuedKept(s: S.Sender, data: seq<byte>, flags: Flags)
    ensures var t := S.Enqueue(s, data, flags);
            && t.kept == s.kept + data && t.una == s.una && t.nxt == s.nxt && t.fins == s.fins
            && t.finAcked == s.finAcked
            && t.stream.bytes == s.stream.bytes + data && t.k == s.k
            && t.stream.sealed == (s.stream.sealed || flags.fin || flags.rst)
            && t.stream.ctl == if flags.ctl then |data| else s.stream.ctl
  {
  }

  lemma FinIsEmpty(s: S.Sender, i: nat)
    requires S.Ok(s) && i < |s.slist|
    ensures s.slist[i].flags.fin ==> s.slist[i].len == 0
  {
    hide Laid, Total;
    SegmentAt(s.slist, i, s.Base(), s.stream.ctl);
  }

  lemma WaitingHead(s: S.Sender)
    requires S.Ok(s) && s.k < |s.slist|
    ensures SentPrefix(s.slist, s.k) && Waiting(s)[0] == s.slist[s.k] && s.slist[s.k].xmit == 0
  {
  }

  /** What waits after a cut of the first waiting segment. */
  lemma CutWaiting(s: S.Sender, n: nat)
    requires S.Ok(s) && s.k < |s.slist| && n <= s.slist[s.k].len
    ensures var t := S.Cut(s, s.k, n);
            && t.k == s.k < |t.slist| && t == s.(slist := t.slist)
            && t.slist[t.k] == s.slist[s.k].(len := n)
            && Waiting(t) == [s.slist[s.k].(len := n), Rest(s.slist[s.k], n)] + Waiting(s)[1..]
  {
  }

  /** What waits after a transmission of the first waiting segment. */
  lemma TransmittedWaiting(s: S.Sender, n: nat)
    requires S.Ok(s) && s.k < |s.slist| && n <= s.slist[s.k].len && (s.slist[s.k].len > 0 ==> n > 0)
    ensures var t := S.Transmitted(s, s.k, n);
            var g := s.slist[s.k];
            && t.k == s.k + 1 <= |t.slist|
            && Waiting(t) == (if n < g.len then [Rest(g, n)] else []) + Waiting(s)[1..]
            && Frontier(t) == Frontier(s) + n
            && Later(s, t)
            && t.fins == s.fins + (if g.len == 0 && g.flags.fin then 1 else 0)
  {
    hide S.Partition, S.Closing, Total;
    WaitingHead(s);
    if n < s.slist[s.k].len {
      CutWaiting(s, n);
      MarkWaiting(S.Cut(s, s.k, n));
    } else {
      MarkWaiting(s);
    }
  }

  lemma MarkWaiting(s: S.Sender)
    requires s.k < |s.slist| && s.slist[s.k].xmit == 0
    ensures var t := S.Mark(s, s.k);
            && t.k == s.k + 1 <= |t.slist| && Waiting(t) == Waiting(s)[1..]
            && Frontier(t) == Frontier(s) + s.slist[s.k].len && Later(s, t)
            && t.fins == s.fins + (if s.slist[s.k].len == 0 && s.slist[s.k].flags.fin then 1 else 0)
  {
  }

  /** The frontier is a place in the stream; a FIN has passed only at its end. */
  lemma FrontierInStream(s: S.Sender)
    requires S.Ok(s)
    ensures 0 <= Frontier(s) && Frontier(s) + Total(Waiting(s)) == |s.stream.bytes|
    ensures s.fins > 0 ==> Total(Waiting(s)) == 0
  {
    hide Laid, Total, SentPrefix, EmptyAtEnd, S.OnlyPlain, S.OnlyLastEmpty, S.ResetsAt;
    TotalSplit(s.slist, s.k);
  }

  lemma {:induction false} FinCountConcat(a: seq<SSegment>, b: seq<SSegment>)
    ensures FinCount(a + b) == FinCount(a) + FinCount(b)
  {
    if a == [] {
      assert a + b == b;
    } else {
      assert (a + b)[1..] == a[1..] + b;
      FinCountConcat(a[1..], b);
    }
  }

  lemma {:induction false} NoFin(w: seq<SSegment>)
    requires forall i :: 0 <= i < |w| ==> !w[i].flags.fin
    ensures FinCount(w) == 0
  {
    if w != [] {
      NoFin(w[1..]);
    }
  }

  lemma FinCountOne(g: SSegment)
    ensures FinCount([g]) == if g.flags.fin then 1 else 0
  {
    assert [g][1..] == [];
  }

  lemma TotalCons(g: SSegment, w: seq<SSegment>)
    ensures Total([g] + w) == g.len + Total(w)
  {
    assert ([g] + w)[1..] == w;
  }

  /** What waits after one turn of the send loop: the rest of the transmitted
      piece, the rest of the segment it was cut from, the other segments. */
  lemma NextWaiting(s: S.Sender, cut: S.Sender, limit: nat, n: nat) returns (front: seq<SSegment>)
    requires S.Ok(s) && S.Ok(cut) && s.k < |s.slist|
    requires cut == if s.slist[s.k].len > limit then S.Cut(s, s.k, limit) else s
    requires s.slist[s.k].len > limit ==> limit > 0
    requires cut.k == s.k < |cut.slist| && n <= cut.slist[s.k].len && (cut.slist[s.k].len > 0 ==> n > 0)
    ensures var t := S.Transmitted(cut, s.k, n);
            && t.k <= |t.slist| && Waiting(t) == front + Waiting(s)[1..]
            && Total(front) == s.slist[s.k].len - n && n <= limit
            && (forall i :: 0 <= i < |front| ==> front[i].flags == s.slist[s.k].flags)
            && (n == 0 ==> front == []) && (s.slist[s.k].len > 0 ==> n > 0)
            && cut.slist[s.k].flags == s.slist[s.k].flags
            && Later(s, t) && Frontier(t) == Frontier(s) + n
            && t.fins == s.fins + (if s.slist[s.k].len == 0 && s.slist[s.k].flags.fin then 1 else 0)
  {
    hide S.Ok, S.Transmitted, S.Cut, Total, Later;
    var g := s.slist[s.k];
    var rest := Waiting(s)[1..];
    S.LaidEmpty(0, 0);
    if g.len > limit {
      CutWaiting(s, limit);
      assert Waiting(cut)[1..] == [Rest(g, limit)] + rest;
    }
    TransmittedWaiting(cut, n);
    TransmittedLater(s, cut, limit, n);
    var f1 := if n < cut.slist[s.k].len then [Rest(cut.slist[s.k], n)] else [];
    var f2 := if g.len > limit then [Rest(g, limit)] else [];
    front := f1 + f2;
    assert f1 + (f2 + rest) == front + rest;
    FrontTotal(f1, f2);
  }

  lemma FrontTotal(a: seq<SSegment>, b: seq<SSegment>)
    requires |a| <= 1 && |b| <= 1
    ensures Total(a + b) == (if a == [] then 0 else a[0].len) + (if b == [] then 0 else b[0].len)
  {
    TotalConcat(a, b);
    if a != [] { TotalOne(a[0]); }
    if b != [] { TotalOne(b[0]); }
  }

  lemma CutNoReset(s: S.Sender, i: nat, n: nat)
    requires i < |s.slist| && n <= s.slist[i].len
    ensures NoReset(s.slist) ==> NoReset(S.Cut(s, i, n).slist)
  {
    S.SplitAt(s.slist, i, n);
  }

  lemma TransmittedNoReset(s: S.Sender, i: nat, n: nat)
    requires i < |s.slist| && n <= s.slist[i].len
    ensures NoReset(s.slist) ==> NoReset(S.Transmitted(s, i, n).slist)
  {
    var cut := if n < s.slist[i].len then S.Cut(s, i, n) else s;
    CutNoReset(s, i, n);
    assert forall j :: 0 <= j < |cut.slist| ==> S.Mark(cut, i).slist[j].flags == cut.slist[j].flags;
  }

  lemma TransmittedLater(s: S.Sender, cut: S.Sender, limit: nat, n: nat)
    requires s.k < |cut.slist| && n <= cut.slist[s.k].len
    requires s.k < |s.slist| && (cut == s || (limit <= s.slist[s.k].len && cut == S.Cut(s, s.k, limit)))
    ensures Later(s, S.Transmitted(cut, s.k, n)) && Frontier(cut) == Frontier(s) && cut.fins == s.fins
  {
    TransmittedNoReset(cut, s.k, n);
    if cut != s {
      CutNoReset(s, s.k, limit);
    }
  }

  /** One turn of the send loop. */
  lemma NextSent(s: S.Sender, cut: S.Sender, limit: nat, n: nat, p: S.Packet)
    requires S.Ok(s) && S.Ok(cut) && s.k < |s.slist|
    requires cut == if s.slist[s.k].len > limit then S.Cut(s, s.k, limit) else s
    requires s.slist[s.k].len > limit ==> limit > 0
    requires cut.k == s.k < |cut.slist| && n <= cut.slist[s.k].len && (cut.slist[s.k].len > 0 ==> n > 0)
    requires S.WellCut(p, s.stream) && |p.seg.data| == n && p.seg.flags == cut.slist[s.k].flags
    requires n > 0 ==> p.pos + n == S.Transmitted(cut, s.k, n).nxt
    ensures var t := S.Transmitted(cut, s.k, n);
            && Later(s, t) && Progress(s, t) && InOrder(s, t, p, s.slist[s.k].flags)
            && (s.slist[s.k].len > 0 ==> t.fins == s.fins && t.nxt <= s.nxt + limit)
  {
    hide S.Ok, S.Transmitted, S.Cut, S.WellCut, Total, FinCount, Progress, Later, InOrder;
    var t := S.Transmitted(cut, s.k, n);
    var g := s.slist[s.k];
    var rest := Waiting(s)[1..];
    var front := NextWaiting(s, cut, limit, n);
    WaitingHead(s);
    assert Waiting(s) == [g] + rest;
    assert Progress(s, t) by {
      FinIsEmpty(s, s.k);
      NextProgress(s, t, g, front, rest, n);
    }
    assert InOrder(s, t, p, g.flags) by {
      TotalCons(g, rest);
      FrontierInStream(s);
      NextInOrder(s, t, p, g, front, rest, n);
    }
  }

  /** The packet that goes out continues the stream, and what is last stays so. */
  lemma NextInOrder(s: S.Sender, t: S.Sender, p: S.Packet, g: SSegment, front: seq<SSegment>, rest: seq<SSegment>,
                    n: nat)
    requires s.k < |s.slist| && t.k <= |t.slist| && Waiting(s) == [g] + rest && Waiting(t) == front + rest
    requires forall i :: 0 <= i < |front| ==> front[i].flags == g.flags
    requires 0 <= Frontier(s) && Frontier(t) == Frontier(s) + n <= |s.stream.bytes|
    requires S.WellCut(p, s.stream) && |p.seg.data| == n && p.seg.flags == g.flags && (n > 0 ==> p.pos == Frontier(s))
    ensures InOrder(s, t, p, g.flags)
  {
    hide S.WellCut;
    NextBytes(s.stream, p, Frontier(s), n);
    LastWaiting(s);
    if Waiting(t) != [] {
      LastFlags(front, rest, g);
    }
  }

  lemma NextBytes(stream: S.Stream, p: S.Packet, from: int, n: nat)
    requires 0 <= from && from + n <= |stream.bytes| && S.WellCut(p, stream) && |p.seg.data| == n
              && (n > 0 ==> p.pos == from)
    ensures p.seg.data == stream.bytes[from..from + n]
  {
    if n == 0 {
      assert stream.bytes[from..from] == [];
    }
  }

  lemma LastWaiting(s: S.Sender)
    requires s.k < |s.slist|
    ensures Waiting(s)[|Waiting(s)| - 1] == s.slist[|s.slist| - 1]
  {
  }

  lemma LastFlags(front: seq<SSegment>, rest: seq<SSegment>, g: SSegment)
    requires front + rest != [] && forall i :: 0 <= i < |front| ==> front[i].flags == g.flags
    ensures (front + rest)[|front + rest| - 1].flags == ([g] + rest)[|rest|].flags
  {
  }

  /** What waits gets less. */
  lemma NextProgress(s: S.Sender, t: S.Sender, g: SSegment, front: seq<SSegment>, rest: seq<SSegment>, n: nat)
    requires s.k <= |s.slist| && t.k <= |t.slist| && Waiting(s) == [g] + rest && Waiting(t) == front + rest
    requires n <= g.len && Total(front) == g.len - n && (n == 0 ==> front == []) && (g.flags.fin ==> g.len == 0)
    requires forall i :: 0 <= i < |front| ==> front[i].flags == g.flags
    requires g.len > 0 ==> n > 0
    requires t.fins == s.fins + (if g.len == 0 && g.flags.fin then 1 else 0)
    ensures Progress(s, t)
  {
    hide Total, FinCount, Waiting;
    TotalCons(g, rest);
    TotalConcat(front, rest);
    FinCountConcat(front, rest);
    FinCountConcat([g], rest);
    FinCountOne(g);
    if g.flags.fin {
      assert front == [];
    }
    NoFin(front);
    if AllReset([g] + rest) {
      assert ([g] + rest)[0] == g && forall i :: 0 <= i < |rest| ==> rest[i] == ([g] + rest)[i + 1];
    }
  }

  lemma CutSent(s: S.Sender, i: nat, n: nat)
    requires SentPrefix(s.slist, s.k) && i < |s.slist| && i <= s.k && n <= s.slist[i].len
    ensures SentPrefix(S.Cut(s, i, n).slist, S.Cut(s, i, n).k)
  {
  }

  /** How far segment `i` lies behind the oldest unacknowledged position: within
      the kept bytes, unless the FIN has been acknowledged, which puts every
      segment but a reset in front of it. */
  lemma SegmentOffset(s: S.Sender, i: nat)
    requires S.Ok(s) && i < |s.slist| && |s.kept| <= MAX_UNACKED
    requires s.slist[i].flags.rst ==> i == s.k
    ensures Total(s.slist[..i]) + s.slist[i].len <= |s.kept|
    ensures !s.finAcked && !s.slist[i].flags.rst ==> Sub(s.slist[i].sn, Wrap(s.una)) == Total(s.slist[..i])
    ensures s.finAcked && !s.slist[i].flags.rst ==> Sub(s.slist[i].sn, Wrap(s.una)) == 0xFFFF_FFFF
    ensures s.slist[i].flags.rst ==> Sub(s.slist[i].sn, Wrap(s.una)) == |s.kept| && s.slist[i].len == 0
  {
    hide Laid, Total, SentPrefix, EmptyAtEnd, S.OnlyPlain, S.OnlyLastEmpty, Wrap, Sub;
    SegmentAt(s.slist, i, s.Base(), s.stream.ctl);
    WrapArithmetic(s.Base() + Total(s.slist[..i]), s.una);
    WrapArithmetic(s.una + |s.kept|, s.una);
    WrapNear(s.Base() + Total(s.slist[..i]) - s.una);
    WrapNear(|s.kept|);
  }

  /** A packet built from segment `i` and the ring is cut from the stream. */
  lemma SegmentPacket(s: S.Sender, i: nat, n: nat, p: S.Packet, cells: seq<byte>)
    requires S.Ok(s) && i < |s.slist| && |s.kept| <= MAX_UNACKED && (!s.finAcked || s.slist[i].flags.rst)
    requires s.slist[i].flags.rst ==> i == s.k
    requires n <= s.slist[i].len && (s.slist[i].len > 0 ==> n > 0)
    requires p.seg.sn == s.slist[i].sn && p.seg.flags == s.slist[i].flags
    requires p.pos == if s.slist[i].flags.rst then s.slist[i].sn else s.una + Sub(s.slist[i].sn, Wrap(s.una))
    requires s.kept <= cells && Sub(s.slist[i].sn, Wrap(s.una)) + n <= |s.kept|
    requires p.seg.data == cells[Sub(s.slist[i].sn, Wrap(s.una))..Sub(s.slist[i].sn, Wrap(s.una)) + n]
    ensures S.WellCut(p, s.stream) && |p.seg.data| == n
    ensures n > 0 ==> p.pos == s.una + Total(s.slist[..i])
  {
    hide Laid, Total, Sub, Wrap, SentPrefix, EmptyAtEnd, S.OnlyPlain, S.OnlyLastEmpty, S.ResetsAt;
    SegmentOffset(s, i);
    var o := Sub(s.slist[i].sn, Wrap(s.una));
    assert p.seg.data == s.kept[o..o + n];
    if !s.finAcked {
      if s.slist[i].flags.rst {
        assert s.kept[Total(s.slist[..i])..Total(s.slist[..i]) + n] == [];
      }
      S.SegmentIsWellCut(s, i, n, p);
    } else {
      SegmentAt(s.slist, i, s.Base(), s.stream.ctl);
      WrapNear(p.seg.sn);
    }
  }

  /** `nxt` after a transmission, and the end of what was transmitted. */
  lemma TransmittedPosition(s: S.Sender, i: nat, n: nat)
    requires S.Ok(s) && i < |s.slist| && (i == 0 || i == s.k) && n <= s.slist[i].len
    requires !s.finAcked || s.slist[i].flags.rst
    ensures n > 0 ==> s.una + Total(s.slist[..i]) + n <= S.Transmitted(s, i, n).nxt
    ensures n > 0 && i == s.k ==> s.una + Total(s.slist[..i]) + n == S.Transmitted(s, i, n).nxt
    ensures Later(s, S.Transmitted(s, i, n))
  {
    hide Laid, Total, SentPrefix, EmptyAtEnd, S.OnlyPlain, S.OnlyLastEmpty, S.ResetsAt, NoReset;
    SegmentAt(s.slist, i, s.Base(), s.stream.ctl);
    TransmittedNoReset(s, i, n);
    if i < s.k {
      S.LaidPrefix(s.slist, s.k, s.Base(), s.stream.ctl);
      SegmentAt(s.slist[..s.k], i, s.Base(), s.stream.ctl);
      assert s.slist[..s.k][..i] == s.slist[..i];
    } else {
      S.UnsentCount(s, i);
      TotalSplit(s.slist, i);
    }
  }

  /** What waits when nothing waits. */
  lemma NothingWaits(t: S.Sender)
    requires t.k <= |t.slist|
    ensures Waiting(t) == [] <==> t.k == |t.slist|
  {
  }

  /** What a flush of a queued mark of kind `flags` does.  Nothing waits after it,
      or bytes do and no FIN has gone out; if the network takes every packet, all
      bytes go out in order and the mark goes last. */
  ghost predicate Flushed(s: S.Sender, t: S.Sender, n: Network, m: Network, flags: Flags) {
    && t.stream == s.stream.(sealed := true) && t.una == s.una && t.nxt >= s.nxt && t.kept == s.kept
    && t.finAcked == s.finAcked
    && s.k <= |s.slist| && t.k <= |t.slist| && n.out <= m.out && n.failures <= m.failures
    && (t.fins > 0 || t.finAcked ==> t.k == |t.slist|)
    && FinTotal(t) <= FinTotal(s) + (if flags.fin then 1 else 0)
    && (flags.fin && NoReset(s.slist) ==> NoReset(t.slist))
    && (m.failures == n.failures ==>
          && FlushedInOrder(s, t, m.out, |n.out|) && Frontier(t) == |t.stream.bytes| && t.k == |t.slist|
          && |m.out| > |n.out| && m.out[|m.out| - 1].seg.flags == flags)
  }

  /** A flush of `q`, which is `s` with the mark queued last. */
  lemma FlushEnds(s: S.Sender, q: S.Sender, t: S.Sender, n: Network, m: Network, z: Sizing, y: Sizing,
                  wnd: u32, dupAcks: byte, ack: int, field: nat, flags: Flags)
    requires SentSince(q, t, n, m, z, y, wnd, dupAcks, true, ack, field)
    requires S.Ok(t) && t.k <= |t.slist| && (Waiting(t) == [] || (Total(Waiting(t)) > 0 && m.failures > n.failures))
    requires q.nxt == s.nxt && q.fins == s.fins && q.una == s.una && q.kept == s.kept && q.finAcked == s.finAcked
    requires q.stream == s.stream.(sealed := true) && s.k <= |s.slist|
    requires q.k < |q.slist| && q.slist[|q.slist| - 1].flags == flags
    requires flags.fin && NoReset(s.slist) ==> NoReset(q.slist)
    requires FinTotal(t) == FinTotal(q) <= FinTotal(s) + (if flags.fin then 1 else 0)
    ensures Flushed(s, t, n, m, flags) && Searched(z, y) && Delivered(n, m, t, ack, field)
    ensures t.stream == q.stream && t.una == s.una && t.nxt >= s.nxt
  {
    hide S.Partition, S.InFlight, Total, NoReset, Delivered, FinCount;
    FailuresGrow(n, m, t, ack, field);
    FrontierInStream(t);
    NothingWaits(t);
    S.LaidEmpty(0, 0);
  }

  lemma FlushedOut(s: S.Sender, t: S.Sender, n: Network, m: Network, flags: Flags)
    requires Flushed(s, t, n, m, flags)
    ensures n.out <= m.out && n.failures <= m.failures
  {
    hide FlushedInOrder, FinTotal, NoReset;
  }

  lemma FlushedKept(s: S.Sender, t: S.Sender, n: Network, m: Network, flags: Flags)
    requires Flushed(s, t, n, m, flags)
    ensures t.una == s.una && s.nxt <= t.nxt && t.stream.sealed
  {
    hide FlushedInOrder, FinTotal, NoReset;
  }

  /** The partition in the numbers the code works with: segments one after the
      other from `una`, of as many bytes as are kept, those sent first, and `nxt`
      behind them. */
  lemma PartitionByNumbers(s: S.Sender)
    requires S.Ok(s) && !s.stream.sealed && |s.kept| <= MAX_UNACKED
    ensures Total(s.slist) == |s.kept| && s.k <= |s.slist|
    ensures forall i :: 0 <= i < |s.slist| ==>
              s.slist[i].sn == Add(Wrap(s.una), Total(s.slist[..i])) && (s.slist[i].xmit == 0 <==> s.k <= i)
    ensures Sub(Wrap(s.nxt), Wrap(s.una)) == Total(s.slist[..s.k])
  {
    hide Laid, Total, Wrap, Add, Sub, EmptyAtEnd;
    TotalSplit(s.slist, s.k);
    WrapInjective(s.nxt, s.una);
    forall i | 0 <= i < |s.slist| ensures s.slist[i].sn == Add(Wrap(s.una), Total(s.slist[..i]))
        && (s.slist[i].xmit == 0 <==> s.k <= i) {
      SegmentAt(s.slist, i, s.una, s.stream.ctl);
      WrapArithmetic(s.una, Total(s.slist[..i]));
    }
  }
}
