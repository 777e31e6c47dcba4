/** The send half of a socket, told with unbounded stream positions, and the
    packets it hands to the network. */
module Sending {
  import opened Seq32
  import opened Segments

  /** Everything ever queued: the connect message in the first `ctl` positions,
      then data; `sealed` once a FIN or RST has been queued after it. */
  datatype Stream = Stream(bytes: seq<byte>, ctl: nat, sealed: bool)

  /** The send half: the stream, the oldest unacknowledged position, the next
      position to send, the bytes kept for retransmission, the queue, how many
      of its segments have been transmitted, how many FIN transmissions `nxt`
      counts and whether the FIN has been acknowledged. */
  datatype Sender = Sender(
    stream: Stream, una: int, nxt: int, kept: seq<byte>,
    slist: seq<SSegment>, k: nat, fins: nat, finAcked: bool)
  {
    /** The acknowledged part of the stream ends here. */
    function Base(): int { if finAcked then una - 1 else una }

    function End(): int { |stream.bytes| }
  }

  /** A header and payload as `packet` builds them and `parse` reads them. */
  datatype Segment = Segment(
    conv: u32, sn: u32, ack: u32, flags: Flags, wnd: nat, data: seq<byte>, tsval: u32, tsecr: u32)

  /** A segment on the network, with the positions its residues stand for. */
  datatype Packet = Packet(pos: int, ackPos: int, seg: Segment)

  // Invariant ----------------------------------------------------------------

  /** The queue partitions the unacknowledged stream. */
  ghost predicate Partition(s: Sender) {
    && 0 <= s.Base() <= s.End()
    && s.kept == s.stream.bytes[s.Base()..]
    && Laid(s.slist, s.Base(), s.stream.ctl)
    && Total(s.slist) == s.End() - s.Base()
    && s.stream.ctl <= s.End()
  }

  /** Transmitted segments come first and `nxt` lies behind the last of them. */
  ghost predicate InFlight(s: Sender) {
    && s.k <= |s.slist|
    && SentPrefix(s.slist, s.k)
    && EmptyAtEnd(s.slist)
    && s.nxt == s.Base() + Total(s.slist[..s.k]) + s.fins
  }

  ghost predicate OnlyPlain(q: seq<SSegment>) {
    forall i :: 0 <= i < |q| ==> !q[i].flags.fin && !q[i].flags.rst
  }

  /** Resets not yet sent carry number `num`. */
  ghost predicate ResetsAt(q: seq<SSegment>, k: nat, num: u32) {
    forall i :: k <= i < |q| && q[i].flags.rst ==> q[i].sn == num
  }

  /** An empty data segment can only be the last one, waiting for bytes. */
  ghost predicate OnlyLastEmpty(q: seq<SSegment>) {
    forall i :: 0 <= i < |q| && q[i].len == 0 ==>
      i == |q| - 1 && q[i].flags == FLAG_NONE && q[i].xmit == 0
  }

  /** FIN and RST come last. */
  ghost predicate Closing(s: Sender) {
    && (s.finAcked ==> s.fins > 0 && s.Base() == s.End())
    && (s.fins > 0 ==>
          && s.stream.sealed && 0 < s.k <= |s.slist| && s.slist[s.k - 1].len == 0
          && Total(s.slist[..s.k]) == Total(s.slist))
    && (!s.stream.sealed ==> OnlyPlain(s.slist) && OnlyLastEmpty(s.slist))
    && ResetsAt(s.slist, s.k, Wrap(s.una + |s.kept|))
  }

  ghost predicate Ok(s: Sender) {
    Partition(s) && InFlight(s) && Closing(s)
  }

  /** Everything queued has been transmitted at least once. */
  predicate Drained(s: Sender) { s.k == |s.slist| }

  /** A packet that repeats the stream at its own position. */
  ghost predicate WellCut(p: Packet, s: Stream) {
    && p.seg.sn == Wrap(p.pos)
    && (p.seg.data != [] ==>
          && 0 <= p.pos && p.pos + |p.seg.data| <= |s.bytes|
          && p.seg.data == s.bytes[p.pos..p.pos + |p.seg.data|]
          && (if p.seg.flags.ctl then p.pos + |p.seg.data| <= s.ctl else s.ctl <= p.pos)
          && !p.seg.flags.fin && !p.seg.flags.rst)
    && (p.seg.data == [] ==> !p.seg.flags.ctl)
    && (p.seg.flags.fin ==> p.pos == |s.bytes| && s.sealed && !p.seg.flags.rst)
  }

  // Steps --------------------------------------------------------------------

  /** `data` accepted behind everything else. */
  function Enqueue(s: Sender, data: seq<byte>, flags: Flags): Sender {
    var t := Appended(s.slist, Wrap(s.una + |s.kept|), |data|, flags);
    s.(stream := Stream(s.stream.bytes + data,
                        if flags.ctl then |data| else s.stream.ctl,
                        s.stream.sealed || flags.fin || flags.rst),
       kept := s.kept + data,
       slist := t)
  }

  /** Segment `i` cut after `n` bytes; both halves count as transmitted if the
      whole did. */
  function Cut(s: Sender, i: nat, n: nat): Sender
    requires i < |s.slist| && n <= s.slist[i].len
  {
    s.(slist := Split(s.slist, i, n), k := if s.slist[i].xmit > 0 then s.k + 1 else s.k)
  }

  /** Segment `i` transmitted once more; the first time moves `nxt`. */
  function Mark(s: Sender, i: nat): Sender
    requires i < |s.slist|
  {
    var g := s.slist[i];
    var first := g.xmit == 0;
    var fin := if first && g.len == 0 && g.flags.fin then 1 else 0;
    s.(slist := s.slist[i := g.(xmit := g.xmit + 1)],
       k := if first then s.k + 1 else s.k,
       nxt := s.nxt + (if first then g.len else 0) + fin,
       fins := s.fins + fin)
  }

  /** The first `n` bytes of segment `i` transmitted, the rest cut off. */
  function Transmitted(s: Sender, i: nat, n: nat): Sender
    requires i < |s.slist| && n <= s.slist[i].len
  {
    Mark(if n < s.slist[i].len then Cut(s, i, n) else s, i)
  }

  /** `n` positions acknowledged, the last of them the FIN if `fin`. */
  function Acknowledged(s: Sender, n: nat, fin: bool): Sender
    requires n <= |s.kept| + (if fin then 1 else 0)
    requires fin ==> n == |s.kept| + 1
    requires |s.kept| <= Total(s.slist)
  {
    var bytes := if fin then n - 1 else n;
    var t := DropAcked(s.slist, bytes);
    s.(una := s.una + n,
       kept := s.kept[bytes..],
       slist := t,
       k := if s.k >= |s.slist| - |t| then s.k - (|s.slist| - |t|) else 0,
       finAcked := s.finAcked || fin)
  }

  // Lemmas -------------------------------------------------------------------

  /** A FIN sits behind the whole stream. */
  lemma EmptyIsLast(s: seq<SSegment>, i: nat)
    requires EmptyAtEnd(s) && i < |s| && s[i].len == 0
    ensures Total(s[..i]) == Total(s)
  {
    hide Total;
    TotalSplit(s, i);
    EmptyTail(s[i..]);
  }

  /** A segment of the queue, cut after `n` bytes, is a packet cut from the
      stream; this holds for a first transmission and for every repetition. */
  lemma SegmentIsWellCut(s: Sender, i: nat, n: nat, p: Packet)
    requires Ok(s) && i < |s.slist| && !s.finAcked
    requires n <= s.slist[i].len && (s.slist[i].len > 0 ==> n > 0)
    requires p.seg.sn == s.slist[i].sn && p.seg.flags == s.slist[i].flags
    requires p.pos == if s.slist[i].flags.rst then s.slist[i].sn else s.una + Total(s.slist[..i])
    requires Total(s.slist[..i]) + n <= |s.kept|
    requires p.seg.data == s.kept[Total(s.slist[..i])..Total(s.slist[..i]) + n]
    ensures WellCut(p, s.stream)
  {
    hide Laid, Total;
    SegmentAt(s.slist, i, s.una, s.stream.ctl);
    WrapNear(p.seg.sn);
    if s.slist[i].flags.fin {
      EmptyIsLast(s.slist, i);
    }
  }

  /** Queueing extends the partition and the stream. */
  lemma EnqueueKeeps(s: Sender, data: seq<byte>, flags: Flags)
    requires Ok(s)
    requires flags in {FLAG_NONE, FLAG_FIN, FLAG_CTL, FLAG_RST}
    requires flags == FLAG_NONE ==> !s.stream.sealed
    requires flags.ctl ==> s.stream.bytes == [] && s.slist == [] && data != [] && !s.stream.sealed
    requires flags.fin || flags.rst ==> data == []
    requires flags.fin ==> !s.finAcked
    ensures Ok(Enqueue(s, data, flags))
    ensures |Enqueue(s, data, flags).slist| >= |s.slist|
  {
    hide Laid, Total, Appended;
    EnqueuePartition(s, data, flags);
    EnqueueInFlight(s, data, flags);
  }

  lemma EnqueuePartition(s: Sender, data: seq<byte>, flags: Flags)
    requires Ok(s)
    requires flags in {FLAG_NONE, FLAG_FIN, FLAG_CTL, FLAG_RST}
    requires flags == FLAG_NONE ==> !s.stream.sealed
    requires flags.ctl ==> s.stream.bytes == [] && s.slist == [] && data != [] && !s.stream.sealed
    requires flags.fin || flags.rst ==> data == []
    requires flags.fin ==> !s.finAcked
    ensures Partition(Enqueue(s, data, flags))
    ensures Total(Enqueue(s, data, flags).slist) == Total(s.slist) + |data|
  {
    hide Laid, Total, Appended;
    var t := Enqueue(s, data, flags);
    var ctl := t.stream.ctl;
    if flags.ctl {
      assert s.slist == [];
      LaidEmpty(s.Base(), ctl);
    }
    AppendedLaid(s.slist, Wrap(s.una + |s.kept|), |data|, flags, s.Base(), ctl);
  }

  lemma LaidEmpty(p: int, ctl: nat)
    ensures Laid([], p, ctl) && Total([]) == 0
  {
  }

  lemma EnqueueInFlight(s: Sender, data: seq<byte>, flags: Flags)
    requires Ok(s)
    requires flags in {FLAG_NONE, FLAG_FIN, FLAG_CTL, FLAG_RST}
    requires flags == FLAG_NONE ==> !s.stream.sealed
    requires flags.ctl ==> s.slist == [] && data != [] && !s.stream.sealed
    requires flags.fin || flags.rst ==> data == []
    requires Total(Enqueue(s, data, flags).slist) == Total(s.slist) + |data|
    ensures InFlight(Enqueue(s, data, flags)) && Closing(Enqueue(s, data, flags))
    ensures |Enqueue(s, data, flags).slist| >= |s.slist|
  {
    hide Laid, Total, Appended, SentPrefix, EmptyAtEnd, OnlyPlain, ResetsAt, OnlyLastEmpty, Wrap;
    AppendedPlaces(s.slist, s.k, Wrap(s.una + |s.kept|), |data|, flags, s.stream.sealed);
    WrapOnce(s.una + |s.kept|, |data|);
  }

  lemma WrapOnce(p: int, n: int)
    ensures Wrap(Wrap(p) + n) == Wrap(p + n)
  {
    hide Wrap;
    WrapArithmetic(p, n);
    AddSubAreWrap(Wrap(p), n);
  }

  /** The places of the segments after queueing. */
  lemma AppendedPlaces(q: seq<SSegment>, k: nat, num: u32, n: nat, flags: Flags, sealed: bool)
    requires SentPrefix(q, k) && EmptyAtEnd(q) && ResetsAt(q, k, num)
    requires !sealed ==> OnlyPlain(q) && OnlyLastEmpty(q)
    requires flags == FLAG_NONE ==> !sealed
    requires flags == FLAG_CTL ==> q == [] && n > 0 && !sealed
    requires flags.fin || flags.rst ==> n == 0
    requires flags in {FLAG_NONE, FLAG_FIN, FLAG_CTL, FLAG_RST}
    ensures var t := Appended(q, num, n, flags);
            && |t| >= |q| && t[..k] == q[..k]
            && SentPrefix(t, k) && EmptyAtEnd(t)
            && ResetsAt(t, k, if n == 0 then num else Wrap(num + n))
            && (flags == FLAG_NONE || flags == FLAG_CTL ==> OnlyPlain(t) && OnlyLastEmpty(t))
            && (k > 0 ==> t[k - 1] == q[k - 1])
  {
    hide Appended, SentPrefix, EmptyAtEnd, OnlyPlain, ResetsAt, OnlyLastEmpty;
    if Joins(q, flags) {
      var m := |q| - 1;
      assert Appended(q, num, n, flags) == q[m := q[m].(len := q[m].len + n)] by { AppendedCases(q, num, n, flags); }
      JoinedPlaces(q, k, num, n);
    } else {
      assert Appended(q, num, n, flags) == q + [SSegment(num, n, 0, flags)] by { AppendedCases(q, num, n, flags); }
      if flags == FLAG_NONE || flags == FLAG_CTL {
        NothingToJoin(q, flags);
      }
      AddedPlaces(q, k, num, SSegment(num, n, 0, flags));
    }
  }

  ghost predicate NoEmpty(q: seq<SSegment>) {
    forall i :: 0 <= i < |q| ==> q[i].len > 0
  }

  lemma NothingToJoin(q: seq<SSegment>, flags: Flags)
    requires OnlyLastEmpty(q) && !Joins(q, flags) && (flags == FLAG_NONE || q == [])
    ensures NoEmpty(q)
  {
  }

  lemma AppendedCases(q: seq<SSegment>, num: u32, n: nat, flags: Flags)
    ensures Joins(q, flags) ==> Appended(q, num, n, flags) == q[|q| - 1 := q[|q| - 1].(len := q[|q| - 1].len + n)]
    ensures !Joins(q, flags) ==> Appended(q, num, n, flags) == q + [SSegment(num, n, 0, flags)]
  {
  }

  /** Bytes joined to the last segment. */
  lemma JoinedPlaces(q: seq<SSegment>, k: nat, num: u32, n: nat)
    requires SentPrefix(q, k) && EmptyAtEnd(q) && ResetsAt(q, k, num)
    requires q != [] && q[|q| - 1].xmit == 0
    requires n > 0 ==> OnlyLastEmpty(q) && OnlyPlain(q)
    ensures var t := q[|q| - 1 := q[|q| - 1].(len := q[|q| - 1].len + n)];
            && t[..k] == q[..k] && (k > 0 ==> t[k - 1] == q[k - 1])
            && SentPrefix(t, k) && EmptyAtEnd(t)
            && ResetsAt(t, k, if n == 0 then num else Wrap(num + n))
            && (OnlyPlain(q) ==> OnlyPlain(t)) && (OnlyLastEmpty(q) ==> OnlyLastEmpty(t))
  {
  }

  /** A segment put behind the others. */
  lemma AddedPlaces(q: seq<SSegment>, k: nat, num: u32, g: SSegment)
    requires SentPrefix(q, k) && EmptyAtEnd(q) && ResetsAt(q, k, num)
    requires g.xmit == 0 && (g.flags.rst ==> g.sn == num && g.len == 0)
    requires g.len > 0 ==> OnlyPlain(q) && NoEmpty(q)
    ensures var t := q + [g];
            && t[..k] == q[..k] && (k > 0 ==> t[k - 1] == q[k - 1])
            && SentPrefix(t, k) && EmptyAtEnd(t)
            && ResetsAt(t, k, if g.len == 0 then num else Wrap(num + g.len))
            && (OnlyPlain(q) && !g.flags.fin && !g.flags.rst ==> OnlyPlain(t))
            && (NoEmpty(q) && (g.len > 0 || g.flags == FLAG_NONE) ==> OnlyLastEmpty(t))
  {
  }

  /** Cutting a segment changes nothing but the cut. */
  lemma CutKeeps(s: Sender, i: nat, n: nat)
    requires Ok(s) && i < |s.slist| && i <= s.k && 0 < n < s.slist[i].len
    ensures Ok(Cut(s, i, n))
  {
    hide Laid, Total, Split, SentPrefix, EmptyAtEnd, OnlyPlain, ResetsAt, OnlyLastEmpty;
    var t := Cut(s, i, n);
    SplitKeeps(s.slist, i, n, s.Base(), s.stream.ctl);
    SegmentAt(s.slist, i, s.Base(), s.stream.ctl);
    CutPlaces(s.slist, s.k, i, n, Wrap(s.una + |s.kept|));
    if i < s.k {
      LaidPrefix(s.slist, s.k, s.Base(), s.stream.ctl);
      assert s.slist[..s.k][i] == s.slist[i];
      SplitKeeps(s.slist[..s.k], i, n, s.Base(), s.stream.ctl);
    }
  }

  lemma EmptyFollows(q: seq<SSegment>, i: nat, j: nat)
    requires EmptyAtEnd(q) && i < j < |q| && q[i].len == 0
    ensures q[j].len == 0
  {
  }

  /** The places of the segments around a cut. */
  lemma CutPlaces(q: seq<SSegment>, k: nat, i: nat, n: nat, num: u32)
    requires SentPrefix(q, k) && EmptyAtEnd(q) && ResetsAt(q, k, num)
    requires i < |q| && i <= k && 0 < n < q[i].len && !q[i].flags.rst
    ensures var t := Split(q, i, n);
            var k' := if q[i].xmit > 0 then k + 1 else k;
            && SentPrefix(t, k') && EmptyAtEnd(t) && ResetsAt(t, k', num)
            && (OnlyPlain(q) ==> OnlyPlain(t)) && (OnlyLastEmpty(q) ==> OnlyLastEmpty(t))
            && k' <= |t| && (i < k <==> q[i].xmit > 0)
            && (i < k ==> t[..k'] == Split(q[..k], i, n))
            && (i == k ==> t[..k'] == q[..k])
            && (i < k && q[k - 1].len == 0 ==> t[k' - 1].len == 0)
  {
    hide Split, SentPrefix, EmptyAtEnd, ResetsAt, OnlyPlain, OnlyLastEmpty;
    PlaceOfCut(q, k, i);
    CutSentPrefix(q, k, i, n);
    CutKinds(q, k, i, n, num);
    SplitAt(q, i, n);
    if i < k {
      SplitPrefix(q, k, i, n);
    } else {
      assert Split(q, i, n)[..k] == q[..k];
    }
  }

  lemma PlaceOfCut(q: seq<SSegment>, k: nat, i: nat)
    requires SentPrefix(q, k) && i < |q| && i <= k
    ensures k <= |q| && (i < k <==> q[i].xmit > 0)
  {
  }

  lemma SplitPrefix(q: seq<SSegment>, k: nat, i: nat, n: nat)
    requires i < k <= |q| && n <= q[i].len
    ensures Split(q, i, n)[..k + 1] == Split(q[..k], i, n)
    ensures i < k - 1 ==> Split(q, i, n)[k] == q[k - 1]
  {
    hide Rest;
  }

  lemma CutSentPrefix(q: seq<SSegment>, k: nat, i: nat, n: nat)
    requires SentPrefix(q, k) && EmptyAtEnd(q) && i < |q| && i <= k && 0 < n < q[i].len
    ensures SentPrefix(Split(q, i, n), if q[i].xmit > 0 then k + 1 else k) && EmptyAtEnd(Split(q, i, n))
  {
    hide Split;
    SplitAt(q, i, n);
  }

  lemma CutKinds(q: seq<SSegment>, k: nat, i: nat, n: nat, num: u32)
    requires SentPrefix(q, k) && ResetsAt(q, k, num) && i < |q| && i <= k && 0 < n < q[i].len && !q[i].flags.rst
    ensures ResetsAt(Split(q, i, n), if q[i].xmit > 0 then k + 1 else k, num)
    ensures (OnlyPlain(q) ==> OnlyPlain(Split(q, i, n))) && (OnlyLastEmpty(q) ==> OnlyLastEmpty(Split(q, i, n)))
  {
    hide Split;
    SplitAt(q, i, n);
  }

  lemma SplitAt(q: seq<SSegment>, i: nat, n: nat)
    requires i < |q| && n <= q[i].len
    ensures |Split(q, i, n)| == |q| + 1
    ensures forall j :: 0 <= j < i ==> Split(q, i, n)[j] == q[j]
    ensures Split(q, i, n)[i] == q[i].(len := n)
    ensures Split(q, i, n)[i + 1] == Rest(q[i], n)
    ensures forall j :: i + 1 < j <= |q| ==> Split(q, i, n)[j] == q[j - 1]
  {
  }

  lemma LaidPrefix(s: seq<SSegment>, k: nat, p: int, ctl: nat)
    requires k <= |s| && Laid(s, p, ctl)
    ensures Laid(s[..k], p, ctl)
  {
    hide Laid, Total;
    assert s == s[..k] + s[k..];
    LaidConcat(s[..k], s[k..], p, ctl);
  }

  /** Marking a segment as transmitted moves no segment. */
  lemma MarkKeeps(s: Sender, i: nat)
    requires Ok(s) && i < |s.slist| && (i == 0 || i == s.k)
    requires s.stream.sealed || s.slist[i].len > 0
    ensures Ok(Mark(s, i))
    ensures Mark(s, i).k > 0
  {
    hide Laid, Total, SentPrefix, EmptyAtEnd, OnlyPlain, ResetsAt, OnlyLastEmpty, Wrap;
    var t := Mark(s, i);
    MarkPlaces(s.slist, s.k, i, Wrap(s.una + |s.kept|));
    SameLayout(s.slist, t.slist, s.Base(), s.stream.ctl);
    SegmentAt(s.slist, i, s.Base(), s.stream.ctl);
    LaidPrefix(s.slist, t.k, s.Base(), s.stream.ctl);
    SameLayout(s.slist[..t.k], t.slist[..t.k], s.Base(), s.stream.ctl);
    if s.slist[i].len == 0 {
      EmptyIsLast(s.slist, i);
    }
    if i == s.k && s.fins > 0 {
      EmptyFollows(s.slist, s.k - 1, i);
    }
    assert Partition(t) && InFlight(t);
  }

  lemma MarkPlaces(q: seq<SSegment>, k: nat, i: nat, num: u32)
    requires SentPrefix(q, k) && EmptyAtEnd(q) && ResetsAt(q, k, num)
    requires i < |q| && (i == 0 || i == k)
    ensures var t := q[i := q[i].(xmit := q[i].xmit + 1)];
            var k' := if q[i].xmit == 0 then k + 1 else k;
            && i < k' <= |q| && (q[i].xmit == 0 <==> i == k)
            && SentPrefix(t, k') && EmptyAtEnd(t) && ResetsAt(t, k', num)
            && (OnlyPlain(q) ==> OnlyPlain(t))
            && (OnlyLastEmpty(q) && q[i].len > 0 ==> OnlyLastEmpty(t))
  {
  }

  /** Transmitting keeps the partition and moves `nxt` by the bytes sent for the
      first time. */
  lemma TransmittedKeeps(s: Sender, i: nat, n: nat)
    requires Ok(s) && i < |s.slist| && (i == 0 || i == s.k)
    requires n <= s.slist[i].len && (s.slist[i].len > 0 ==> n > 0)
    requires s.stream.sealed || s.slist[i].len > 0
    ensures Ok(Transmitted(s, i, n))
    ensures Transmitted(s, i, n).k > 0
    ensures s.nxt <= Transmitted(s, i, n).nxt
  {
    hide Cut, Mark, Laid, Total, SentPrefix, EmptyAtEnd, OnlyPlain, ResetsAt, OnlyLastEmpty;
    if n < s.slist[i].len {
      CutKeeps(s, i, n);
      CutShape(s, i, n);
      MarkKeeps(Cut(s, i, n), i);
      MarkAdvances(Cut(s, i, n), i);
    } else {
      MarkKeeps(s, i);
      MarkAdvances(s, i);
    }
  }

  lemma CutShape(s: Sender, i: nat, n: nat)
    requires SentPrefix(s.slist, s.k) && i < |s.slist| && (i == 0 || i == s.k) && n <= s.slist[i].len
    ensures i < |Cut(s, i, n).slist| && Cut(s, i, n).slist[i] == s.slist[i].(len := n)
    ensures i == 0 || i == Cut(s, i, n).k
    ensures Cut(s, i, n).nxt == s.nxt
  {
  }

  lemma MarkAdvances(s: Sender, i: nat)
    requires i < |s.slist|
    ensures s.nxt <= Mark(s, i).nxt
  {
  }

  /** An acknowledgement of transmitted positions leaves a partition of what is
      still unacknowledged. */
  lemma AcknowledgedKeeps(s: Sender, n: nat, fin: bool)
    requires Ok(s) && !s.finAcked && n <= s.nxt - s.una
    requires if fin then n == |s.kept| + 1 && s.fins > 0 && Drained(s) else n <= |s.kept|
    ensures |s.kept| <= Total(s.slist) && Ok(Acknowledged(s, n, fin))
    ensures Acknowledged(s, n, fin).slist[Acknowledged(s, n, fin).k..] == s.slist[s.k..]
  {
    hide Laid, Total, DropAcked, SentPrefix, EmptyAtEnd, OnlyPlain, ResetsAt, OnlyLastEmpty;
    var bytes := if fin then n - 1 else n;
    var t := Acknowledged(s, n, fin);
    DropAckedLaid(s.slist, bytes, s.una, s.stream.ctl);
    DropAckedSent(s.slist, bytes, s.k);
    TotalSplit(s.slist, s.k);
    TotalSplit(t.slist, t.k);
    AckedPlaces(s.slist, bytes, s.k, Wrap(s.una + |s.kept|));
    if fin {
      assert |t.slist[t.k..]| == 0;
      NoneUnsent(t.slist, t.k, Wrap(t.una + |t.kept|));
    }
  }

  predicate Untouched(s: Sender) {
    s == Sender(Stream([], 0, false), 0, 0, [], [], 0, 0, false)
  }

  lemma NothingQueued(s: Sender)
    requires Untouched(s)
    ensures Ok(s)
  {
    hide Partition, InFlight, Closing;
    NothingInFlight(s);
    assert Partition(s) by { EmptyPartition(s); }
    assert Closing(s) by { NothingClosing(s); }
  }

  lemma EmptyPartition(s: Sender)
    requires Untouched(s)
    ensures Partition(s)
  {
  }

  lemma NothingInFlight(s: Sender)
    requires Untouched(s)
    ensures InFlight(s)
  {
    assert s.slist[..0] == [];
  }

  lemma NothingClosing(s: Sender)
    requires Untouched(s)
    ensures Closing(s)
  {
  }

  lemma UnsentCount(s: Sender, i: nat)
    requires SentPrefix(s.slist, s.k) && i < |s.slist|
    ensures s.slist[i].xmit == 0 <==> s.k <= i
  {
  }

  lemma NoneUnsent(q: seq<SSegment>, k: nat, num: u32)
    requires k >= |q|
    ensures ResetsAt(q, k, num)
  {
  }

  /** The places of the segments left by an acknowledgement. */
  lemma AckedPlaces(q: seq<SSegment>, n: nat, k: nat, num: u32)
    requires SentPrefix(q, k) && EmptyAtEnd(q) && n <= Total(q[..k]) && n <= Total(q)
    requires ResetsAt(q, k, num)
    ensures var t := DropAcked(q, n);
            && |t| <= |q|
            && (OnlyPlain(q) ==> OnlyPlain(t))
            && (OnlyLastEmpty(q) ==> OnlyLastEmpty(t))
            && ResetsAt(t, Max(0, k - (|q| - |t|)), num)
  {
    hide DropAcked, SentPrefix, EmptyAtEnd, Total, Remains, OnlyPlain, OnlyLastEmpty, ResetsAt;
    PrefixFits(q, k);
    DropAckedRemains(q, n);
    DropAckedSent(q, n, k);
    var t := DropAcked(q, n);
    RemainsPlain(q, t);
    RemainsLastEmpty(q, t);
    TailResets(q, t, k, k - (|q| - |t|), num);
  }

  lemma RemainsPlain(q: seq<SSegment>, t: seq<SSegment>)
    requires Remains(q, t)
    ensures OnlyPlain(q) ==> OnlyPlain(t)
  {
    forall i | OnlyPlain(q) && 0 <= i < |t| ensures !t[i].flags.fin && !t[i].flags.rst {
      assert Alike(t[i], q[|q| - |t| + i]);
    }
  }

  lemma RemainsLastEmpty(q: seq<SSegment>, t: seq<SSegment>)
    requires Remains(q, t)
    ensures OnlyLastEmpty(q) ==> OnlyLastEmpty(t)
  {
    forall i | OnlyLastEmpty(q) && 0 <= i < |t| && t[i].len == 0
      ensures i == |t| - 1 && t[i].flags == FLAG_NONE && t[i].xmit == 0
    {
      assert Alike(t[i], q[|q| - |t| + i]);
    }
  }

  lemma TailResets(q: seq<SSegment>, t: seq<SSegment>, k: nat, k': nat, num: u32)
    requires k <= |q| && k' <= |t| && t[k'..] == q[k..] && ResetsAt(q, k, num)
    ensures ResetsAt(t, k', num)
  {
    forall i | k' <= i < |t| && t[i].flags.rst ensures t[i].sn == num {
      assert t[i] == t[k'..][i - k'] == q[k..][i - k'];
    }
  }
}
