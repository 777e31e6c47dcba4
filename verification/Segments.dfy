/** The send queue: segments that partition the unacknowledged stream. */
module Segments {
  import opened Seq32

  datatype Flags = Flags(fin: bool, ctl: bool, rst: bool)

  const FLAG_NONE := Flags(false, false, false)
  const FLAG_FIN := Flags(true, false, false)
  const FLAG_CTL := Flags(false, true, false)
  const FLAG_RST := Flags(false, false, true)

  datatype SSegment = SSegment(sn: u32, len: nat, xmit: nat, flags: Flags)

  /** Number of stream bytes held by the segments. */
  function Total(s: seq<SSegment>): nat {
    if s == [] then 0 else s[0].len + Total(s[1..])
  }

  /** The segments follow each other without gap or overlap from position `p`
      and each of them is well placed there. */
  ghost predicate Laid(s: seq<SSegment>, p: int, ctl: nat) {
    s == [] || (Placed(s[0], p, ctl) && Laid(s[1..], p + s[0].len, ctl))
  }

  /** A segment carries its position's number, and control bytes or data bytes
      but never both: the connect message fills exactly the positions below
      `ctl`.  FIN and RST hold no bytes, and a reset is not part of the stream,
      so its number is not constrained. */
  ghost predicate Placed(g: SSegment, p: int, ctl: nat) {
    && (g.flags.rst || g.sn == Wrap(p))
    && (g.flags.ctl ==> 0 < g.len && p + g.len <= ctl)
    && (!g.flags.ctl && g.len > 0 ==> ctl <= p)
    && (g.flags.fin || g.flags.rst ==> g.len == 0)
    && g.flags in {FLAG_NONE, FLAG_FIN, FLAG_CTL, FLAG_RST}
  }

  /** An empty segment is followed by empty segments only. */
  ghost predicate EmptyAtEnd(s: seq<SSegment>) {
    forall i, j :: 0 <= i < j < |s| && s[i].len == 0 ==> s[j].len == 0
  }

  /** `k` segments at the front have been transmitted, the others have not. */
  ghost predicate SentPrefix(s: seq<SSegment>, k: nat) {
    && k <= |s|
    && (forall i :: 0 <= i < k ==> s[i].xmit > 0)
    && (forall i :: k <= i < |s| ==> s[i].xmit == 0)
  }

  // The three ways the queue changes ----------------------------------------

  /** The second half of a segment cut after `n` bytes. */
  function Rest(g: SSegment, n: nat): SSegment
    requires n <= g.len
  {
    SSegment(Add(g.sn, n), g.len - n, g.xmit, g.flags)
  }

  /** Segment `i` cut after `n` bytes (transmit and attempt_send). */
  function Split(s: seq<SSegment>, i: nat, n: nat): seq<SSegment>
    requires i < |s| && n <= s[i].len
  {
    s[..i] + [s[i].(len := n), Rest(s[i], n)] + s[i + 1..]
  }

  /** The queue after `n` bytes at its front were acknowledged (process). */
  function DropAcked(s: seq<SSegment>, n: nat): seq<SSegment>
    requires n <= Total(s)
  {
    if n == 0 then s
    else if n < s[0].len then [s[0].(len := s[0].len - n, sn := Add(s[0].sn, n))] + s[1..]
    else DropAcked(s[1..], n - s[0].len)
  }

  /** Whether newly queued bytes join the last segment. */
  predicate Joins(s: seq<SSegment>, flags: Flags) {
    |s| > 0 && s[|s| - 1].flags == flags && s[|s| - 1].xmit == 0
  }

  /** The queue after `n` more bytes were accepted at number `num` (queue). */
  function Appended(s: seq<SSegment>, num: u32, n: nat, flags: Flags): seq<SSegment> {
    if Joins(s, flags) then
      s[|s| - 1 := s[|s| - 1].(len := s[|s| - 1].len + n)]
    else
      s + [SSegment(num, n, 0, flags)]
  }

  // Lemmas ------------------------------------------------------------------

  lemma {:induction false} TotalConcat(a: seq<SSegment>, b: seq<SSegment>)
    ensures Total(a + b) == Total(a) + Total(b)
  {
    if a == [] {
      assert a + b == b;
    } else {
      assert (a + b)[1..] == a[1..] + b;
      TotalConcat(a[1..], b);
    }
  }

  lemma TotalSplit(s: seq<SSegment>, i: nat)
    requires i <= |s|
    ensures Total(s) == Total(s[..i]) + Total(s[i..])
  {
    assert s == s[..i] + s[i..];
    TotalConcat(s[..i], s[i..]);
  }

  lemma TotalOne(g: SSegment)
    ensures Total([g]) == g.len
  {
    assert [g][1..] == [];
  }

  lemma {:induction false} LaidConcat(a: seq<SSegment>, b: seq<SSegment>, p: int, ctl: nat)
    ensures Laid(a + b, p, ctl) <==> Laid(a, p, ctl) && Laid(b, p + Total(a), ctl)
  {
    if a == [] {
      assert a + b == b;
    } else {
      assert (a + b)[1..] == a[1..] + b;
      LaidConcat(a[1..], b, p + a[0].len, ctl);
    }
  }

  lemma LaidOne(g: SSegment, p: int, ctl: nat)
    ensures Laid([g], p, ctl) <==> Placed(g, p, ctl)
  {
    assert [g][1..] == [];
  }

  /** Where segment `i` sits in the stream. */
  lemma SegmentAt(s: seq<SSegment>, i: nat, p: int, ctl: nat)
    requires i < |s| && Laid(s, p, ctl)
    ensures Placed(s[i], p + Total(s[..i]), ctl)
    ensures Total(s[..i + 1]) == Total(s[..i]) + s[i].len
    ensures Total(s) == Total(s[..i]) + s[i].len + Total(s[i + 1..])
  {
    assert s == s[..i] + s[i..];
    LaidConcat(s[..i], s[i..], p, ctl);
    assert s[..i + 1] == s[..i] + [s[i]];
    TotalConcat(s[..i], [s[i]]);
    TotalOne(s[i]);
    TotalSplit(s, i + 1);
  }

  /** Exchanging one run of segments for another of the same extent. */
  lemma Replace(a: seq<SSegment>, x: seq<SSegment>, y: seq<SSegment>, b: seq<SSegment>, p: int, ctl: nat)
    requires Laid(a + x + b, p, ctl) && Laid(y, p + Total(a), ctl) && Total(x) == Total(y)
    ensures Laid(a + y + b, p, ctl) && Total(a + y + b) == Total(a + x + b)
  {
    hide *;
    LaidConcat(a + x, b, p, ctl);
    LaidConcat(a, x, p, ctl);
    LaidConcat(a, y, p, ctl);
    LaidConcat(a + y, b, p, ctl);
    TotalConcat(a, x);
    TotalConcat(a, y);
    TotalConcat(a + x, b);
    TotalConcat(a + y, b);
  }

  /** Cutting a segment keeps the partition. */
  lemma SplitKeeps(s: seq<SSegment>, i: nat, n: nat, p: int, ctl: nat)
    requires i < |s| && 0 < n < s[i].len && Laid(s, p, ctl)
    ensures Laid(Split(s, i, n), p, ctl) && Total(Split(s, i, n)) == Total(s)
    ensures Total(Split(s, i, n)[..i + 1]) == Total(s[..i]) + n
    ensures Total(Split(s, i, n)[..i + 2]) == Total(s[..i + 1])
  {
    hide Laid, Total;
    var first, second := s[i].(len := n), Rest(s[i], n);
    var q := p + Total(s[..i]);
    SegmentAt(s, i, p, ctl);
    WrapArithmetic(q, n);
    assert s == s[..i] + [s[i]] + s[i + 1..];
    assert [first, second] == [first] + [second];
    LaidOne(first, q, ctl);
    LaidOne(second, q + n, ctl);
    TotalOne(first);
    TotalOne(second);
    TotalOne(s[i]);
    TotalConcat([first], [second]);
    LaidConcat([first], [second], q, ctl);
    Replace(s[..i], [s[i]], [first, second], s[i + 1..], p, ctl);
    assert Split(s, i, n)[..i + 1] == s[..i] + [first];
    TotalConcat(s[..i], [first]);
    assert Split(s, i, n)[..i + 2] == s[..i] + [first, second];
    TotalConcat(s[..i], [first, second]);
  }

  /** Acknowledging `n` bytes leaves a partition of the rest. */
  lemma {:induction false} DropAckedLaid(s: seq<SSegment>, n: nat, p: int, ctl: nat)
    requires n <= Total(s) && Laid(s, p, ctl)
    ensures Laid(DropAcked(s, n), p + n, ctl)
    ensures Total(DropAcked(s, n)) == Total(s) - n
  {
    if n == 0 {
    } else if n < s[0].len {
      assert DropAcked(s, n)[1..] == s[1..];
      WrapArithmetic(p, n);
    } else {
      DropAckedLaid(s[1..], n - s[0].len, p + s[0].len, ctl);
    }
  }

  /** What is left is the original queue from some segment on, that segment
      possibly shortened but never to nothing. */
  lemma {:induction false} DropAckedShape(s: seq<SSegment>, n: nat)
    requires n <= Total(s)
    ensures var t := DropAcked(s, n);
            && |t| <= |s|
            && (t != [] ==>
                  && t[1..] == s[|s| - |t| + 1..]
                  && (t[0].len == 0 <==> s[|s| - |t|].len == 0)
                  && t[0] == s[|s| - |t|].(len := t[0].len, sn := t[0].sn))
  {
    if n > 0 && n >= s[0].len {
      DropAckedShape(s[1..], n - s[0].len);
      var t := DropAcked(s, n);
      assert t != [] ==> s[1..][|s| - |t|..] == s[|s| - |t| + 1..];
    }
  }

  /** Bytes of the first `k` segments only remove some of these segments, and
      no empty one. */
  lemma {:induction false} DropAckedCount(s: seq<SSegment>, n: nat, k: nat)
    requires k <= |s| && EmptyAtEnd(s) && n <= Total(s[..k]) && n <= Total(s)
    ensures |s| - k <= |DropAcked(s, n)| <= |s|
    ensures |DropAcked(s, n)| == |s| - k ==> DropAcked(s, n) == s[k..]
    ensures |DropAcked(s, n)| == |s| - k && k > 0 ==> s[k - 1].len > 0
    decreases |s|
  {
    if n > 0 && n >= s[0].len {
      assert s[..k][1..] == s[1..][..k - 1];
      if s[0].len == 0 {
        EmptyTail(s);
        assert false;
      }
      DropAckedCount(s[1..], n - s[0].len, k - 1);
      assert s[1..][k - 1..] == s[k..];
    }
  }

  /** Segments of the same kind, both empty or both not. */
  ghost predicate Alike(a: SSegment, b: SSegment) {
    a.flags == b.flags && a.xmit == b.xmit && (a.len == 0 <==> b.len == 0)
  }

  /** `t` is the end of `s`, its first segment perhaps shortened. */
  ghost predicate Remains(s: seq<SSegment>, t: seq<SSegment>) {
    && |t| <= |s|
    && forall j :: 0 <= j < |t| ==> Alike(t[j], s[|s| - |t| + j]) && (j > 0 ==> t[j] == s[|s| - |t| + j])
  }

  lemma DropAckedRemains(s: seq<SSegment>, n: nat)
    requires n <= Total(s)
    ensures Remains(s, DropAcked(s, n))
  {
    hide Total, DropAcked;
    DropAckedShape(s, n);
    var t := DropAcked(s, n);
    forall j | 0 <= j < |t| ensures Alike(t[j], s[|s| - |t| + j]) && (j > 0 ==> t[j] == s[|s| - |t| + j]) {
      if j > 0 {
        assert t[1..][j - 1] == t[j] && s[|s| - |t| + 1..][j - 1] == s[|s| - |t| + j];
      }
    }
  }

  lemma RemainsSent(s: seq<SSegment>, t: seq<SSegment>, k: nat)
    requires Remains(s, t) && SentPrefix(s, k) && |s| - |t| <= k
    ensures SentPrefix(t, k - (|s| - |t|))
  {
  }

  lemma RemainsEmpty(s: seq<SSegment>, t: seq<SSegment>)
    requires Remains(s, t) && EmptyAtEnd(s)
    ensures EmptyAtEnd(t)
  {
    forall i, j | 0 <= i < j < |t| && t[i].len == 0 ensures t[j].len == 0 {
      assert Alike(t[i], s[|s| - |t| + i]) && Alike(t[j], s[|s| - |t| + j]);
    }
  }

  lemma RemainsTail(s: seq<SSegment>, t: seq<SSegment>, k: nat)
    requires Remains(s, t) && |s| - |t| < k <= |s|
    ensures t[k - (|s| - |t|)..] == s[k..]
  {
    var gone := |s| - |t|;
    forall j | 0 <= j < |s| - k ensures t[k - gone..][j] == s[k..][j] {
      assert t[k - gone + j] == s[k + j];
    }
  }

  /** An acknowledgement of transmitted bytes removes or shortens transmitted
      segments only and keeps a transmitted empty segment. */
  lemma DropAckedSent(s: seq<SSegment>, n: nat, k: nat)
    requires SentPrefix(s, k) && EmptyAtEnd(s) && n <= Total(s[..k]) && n <= Total(s)
    ensures var t := DropAcked(s, n);
            var k' := k - (|s| - |t|);
            && |t| <= |s| && 0 <= k'
            && SentPrefix(t, k') && EmptyAtEnd(t)
            && t[k'..] == s[k..]
            && (k > 0 && s[k - 1].len == 0 ==> k' > 0 && t[k' - 1].len == 0)
  {
    hide Total, DropAcked, SentPrefix, EmptyAtEnd, Remains;
    assert k <= |s| by { PrefixFits(s, k); }
    DropAckedCount(s, n, k);
    DropAckedRemains(s, n);
    var t := DropAcked(s, n);
    RemainsSent(s, t, k);
    RemainsEmpty(s, t);
    if |s| - |t| < k {
      RemainsTail(s, t, k);
      RemainsAlike(s, t, k - 1);
    }
  }

  lemma PrefixFits(s: seq<SSegment>, k: nat)
    requires SentPrefix(s, k)
    ensures k <= |s|
  {
  }

  lemma RemainsAlike(s: seq<SSegment>, t: seq<SSegment>, i: nat)
    requires Remains(s, t) && |s| - |t| <= i < |s|
    ensures Alike(t[i - (|s| - |t|)], s[i])
  {
  }

  lemma {:induction false} EmptyTail(s: seq<SSegment>)
    requires EmptyAtEnd(s) && |s| > 0 && s[0].len == 0
    ensures Total(s) == 0
  {
    if |s| > 1 {
      assert s[1].len == 0;
      EmptyTail(s[1..]);
    }
  }

  /** With bytes left, the first segment is not empty. */
  lemma HeadNotEmpty(s: seq<SSegment>)
    requires EmptyAtEnd(s) && Total(s) > 0
    ensures |s| > 0 && s[0].len > 0
  {
    if s[0].len == 0 {
      EmptyTail(s);
    }
  }

  /** Accepting bytes extends the partition at its end. */
  lemma AppendedLaid(s: seq<SSegment>, num: u32, n: nat, flags: Flags, p: int, ctl: nat)
    requires Laid(s, p, ctl) && Placed(SSegment(num, n, 0, flags), p + Total(s), ctl)
    ensures Laid(Appended(s, num, n, flags), p, ctl)
    ensures Total(Appended(s, num, n, flags)) == Total(s) + n
  {
    hide Total, Laid;
    if Joins(s, flags) {
      var m := |s| - 1;
      var h := s[m].(len := s[m].len + n);
      SegmentAt(s, m, p, ctl);
      assert s == s[..m] + [s[m]] && Appended(s, num, n, flags) == s[..m] + [h];
      LaidConcat(s[..m], [s[m]], p, ctl);
      LaidConcat(s[..m], [h], p, ctl);
      LaidOne(h, p + Total(s[..m]), ctl);
      TotalConcat(s[..m], [h]);
      TotalConcat(s[..m], [s[m]]);
      TotalOne(h);
      TotalOne(s[m]);
    } else {
      var h := SSegment(num, n, 0, flags);
      LaidConcat(s, [h], p, ctl);
      LaidOne(h, p + Total(s), ctl);
      TotalConcat(s, [h]);
      TotalOne(h);
    }
  }

  /** Changing transmission counts moves no segment. */
  lemma {:induction false} SameLayout(s: seq<SSegment>, t: seq<SSegment>, p: int, ctl: nat)
    requires |s| == |t| && Laid(s, p, ctl)
    requires forall i :: 0 <= i < |s| ==> t[i] == s[i].(xmit := t[i].xmit)
    ensures Laid(t, p, ctl) && Total(t) == Total(s)
  {
    if s != [] {
      assert t[0] == s[0].(xmit := t[0].xmit);
      SameLayout(s[1..], t[1..], p + s[0].len, ctl);
    }
  }
}
