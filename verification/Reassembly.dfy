/** What the receive half of a socket does with the bytes of a segment, told
    with unbounded stream positions and a ring seen in logical order. */
module Reassembly {
  import opened Seq32
  import opened Fifo

  /** An entry of the out-of-order list: bytes [pos, pos + len) of the stream
      that already sit in the free part of the ring. */
  datatype Piece = Piece(pos: int, len: nat) {
    function End(): int { pos + len }
  }

  /** The receive half: next position wanted, advertised window, the ring and
      the number of valid bytes in it, and the out-of-order list. */
  datatype Receiver = Receiver(nxt: int, wnd: u32, cells: seq<byte>, held: nat, pieces: seq<Piece>) {
    function Free(): int { |cells| - held }
  }

  // The specification of process(), data part --------------------------------

  /** Position and bytes left after cutting off what was already received. */
  function TrimFront(pos: int, data: seq<byte>, nxt: int): (int, seq<byte>) {
    if pos < nxt then
      if nxt - pos < |data| then (nxt, data[nxt - pos..]) else (pos, [])
    else
      (pos, data)
  }

  /** Bytes left after cutting off what does not fit the ring. */
  function TrimBack(pos: int, data: seq<byte>, limit: int): seq<byte> {
    if pos + |data| <= limit then data
    else if pos < limit then data[..limit - pos]
    else []
  }

  /** The next position wanted once the list has been consulted. */
  function Reach(ps: seq<Piece>, nxt: int): int {
    if ps == [] || ps[0].pos > nxt then nxt else Reach(ps[1..], Max(nxt, ps[0].End()))
  }

  /** The list after consultation. */
  function Beyond(ps: seq<Piece>, nxt: int): seq<Piece> {
    if ps == [] || ps[0].pos > nxt then ps else Beyond(ps[1..], Max(nxt, ps[0].End()))
  }

  /** Insertion before the first entry that does not start earlier. */
  function Insert(ps: seq<Piece>, p: Piece): seq<Piece> {
    if ps == [] || ps[0].pos >= p.pos then [p] + ps else [ps[0]] + Insert(ps[1..], p)
  }

  /** Bytes that fit: they enter the ring; if they are the ones wanted, they and
      every piece they connect to become valid, otherwise they are listed. */
  function Store(r: Receiver, pos: int, data: seq<byte>): Receiver
    requires r.held <= |r.cells| && r.nxt <= pos && pos + |data| <= r.nxt + r.Free()
  {
    var cells := Overwrite(r.cells, r.held + (pos - r.nxt), data);
    if pos == r.nxt then
      var n := Reach(r.pieces, r.nxt + |data|);
      Receiver(n, Sub(r.wnd, n - r.nxt), cells, r.held + Max(0, n - r.nxt), Beyond(r.pieces, r.nxt + |data|))
    else
      r.(cells := cells, pieces := Insert(r.pieces, Piece(pos, |data|)))
  }

  /** A data segment. */
  function Receive(r: Receiver, pos: int, data: seq<byte>): Receiver
    requires r.held <= |r.cells|
  {
    var (p, d) := TrimFront(pos, data, r.nxt);
    var e := TrimBack(p, d, r.nxt + r.Free());
    if e == [] then r else Store(r, p, e)
  }

  /** A segment whose bytes do not go to the application. */
  function ReceiveIgnored(r: Receiver, pos: int, data: seq<byte>): Receiver
    requires r.held <= |r.cells|
  {
    var (p, d) := TrimFront(pos, data, r.nxt);
    var e := TrimBack(p, d, r.nxt + r.Free());
    if p == r.nxt then r.(nxt := r.nxt + |e|) else r
  }

  /** A FIN takes one position, once; bytes sent with it are dropped. */
  function ReceiveFin(r: Receiver, pos: int, data: seq<byte>): Receiver {
    if TrimFront(pos, data, r.nxt).0 == r.nxt then r.(nxt := r.nxt + 1) else r
  }

  /** Any segment: a FIN, bytes that are not for the application, or data. */
  function ReceiveSegment(r: Receiver, fin: bool, ignored: bool, pos: int, data: seq<byte>): Receiver
    requires r.held <= |r.cells|
  {
    if fin then ReceiveFin(r, pos, data)
    else if ignored then ReceiveIgnored(r, pos, data)
    else Receive(r, pos, data)
  }

  /** `n` bytes read by the application, which may reopen the window. */
  function TakeFront(r: Receiver, n: nat, wnd: u32): Receiver
    requires n <= r.held <= |r.cells|
  {
    r.(cells := Rotate(r.cells, n), held := r.held - n, wnd := wnd)
  }

  // Invariants ---------------------------------------------------------------

  ghost predicate Sorted(ps: seq<Piece>) {
    forall i, j :: 0 <= i < j < |ps| ==> ps[i].pos <= ps[j].pos
  }

  /** Every listed piece lies between the position wanted and the ring's end. */
  ghost predicate Between(ps: seq<Piece>, low: int, high: int) {
    forall i :: 0 <= i < |ps| ==> low < ps[i].pos && 0 < ps[i].len && ps[i].End() <= high
  }

  ghost predicate Ok(r: Receiver) {
    && r.held <= |r.cells|
    && Sorted(r.pieces)
    && Between(r.pieces, r.nxt, r.nxt + r.Free())
  }

  /** How far control positions may have been consumed past a listed piece. */
  const LAG := 0x2000_0000

  /** What is left of that when a FIN or control bytes, which take no ring space, are
      consumed while something is listed: listed pieces may then start before the
      position wanted, but all of them still fit the ring. */
  ghost predicate Safe(r: Receiver) {
    && r.held <= |r.cells|
    && Sorted(r.pieces)
    && Between(r.pieces, r.nxt - LAG, r.nxt + r.Free())
  }

  /** Consuming `k` control positions does not leave the listed pieces too far behind. */
  ghost predicate Leads(r: Receiver, k: nat) { r.pieces != [] ==> r.nxt + k - LAG < r.pieces[0].pos }

  lemma OkIsSafe(r: Receiver)
    requires Ok(r)
    ensures Safe(r) && forall k: nat :: k <= LAG ==> Leads(r, k)
  {
  }

  lemma SafeAhead(r: Receiver, k: nat)
    requires Safe(r) && Leads(r, k)
    ensures Safe(r.(nxt := r.nxt + k))
  {
  }

  ghost predicate Covers(p: Piece, x: int) { p.pos <= x < p.End() }

  /** Stream byte `x` sits at its own offset in the ring. */
  ghost predicate InPlace(r: Receiver, stream: seq<byte>, x: int) {
    && 0 <= x < |stream|
    && 0 <= r.held + (x - r.nxt) < |r.cells|
    && r.cells[r.held + (x - r.nxt)] == stream[x]
  }

  /** Every byte of a listed piece is in place. */
  ghost predicate Landed(r: Receiver, stream: seq<byte>) {
    forall i, x :: 0 <= i < |r.pieces| && Covers(r.pieces[i], x) ==> InPlace(r, stream, x)
  }

  /** Bytes handed to the application so far, then the ring's contents, are the
      stream from position `base` up to the position wanted. */
  ghost predicate Faithful(r: Receiver, stream: seq<byte>, base: nat, got: seq<byte>) {
    && Ok(r)
    && base <= r.nxt <= |stream|
    && got + r.cells[..r.held] == stream[base..r.nxt]
    && Landed(r, stream)
  }

  // The list -----------------------------------------------------------------

  lemma {:induction false} ReachBounds(ps: seq<Piece>, nxt: int, high: int)
    requires nxt <= high && forall i :: 0 <= i < |ps| ==> ps[i].End() <= high
    ensures nxt <= Reach(ps, nxt) <= high
  {
    if ps != [] && ps[0].pos <= nxt {
      ReachBounds(ps[1..], Max(nxt, ps[0].End()), high);
    }
  }

  /** Everything up to the new position is covered by some piece. */
  lemma {:induction false} ReachIsCovered(ps: seq<Piece>, nxt: int, x: int) returns (i: nat)
    requires nxt <= x < Reach(ps, nxt)
    ensures i < |ps| && Covers(ps[i], x)
  {
    if x < ps[0].End() {
      i := 0;
    } else {
      i := ReachIsCovered(ps[1..], Max(nxt, ps[0].End()), x);
      i := i + 1;
    }
  }

  /** The new position itself is covered by none: nothing more could have been
      released, and nothing that was listed past it is lost. */
  lemma {:induction false} ReachIsMaximal(ps: seq<Piece>, nxt: int)
    requires Sorted(ps)
    ensures forall i :: 0 <= i < |ps| ==> !Covers(ps[i], Reach(ps, nxt))
    ensures |Beyond(ps, nxt)| <= |ps|
    ensures Beyond(ps, nxt) == ps[|ps| - |Beyond(ps, nxt)|..]
    ensures forall i :: 0 <= i < |Beyond(ps, nxt)| ==> Beyond(ps, nxt)[i].pos > Reach(ps, nxt)
  {
    hide Sorted;
    if ps != [] && ps[0].pos <= nxt {
      SortedRest(ps);
      ReachIsMaximal(ps[1..], Max(nxt, ps[0].End()));
      ReachAtLeast(ps[1..], Max(nxt, ps[0].End()));
      var b := Beyond(ps, nxt);
      assert ps[1..][|ps| - 1 - |b|..] == ps[|ps| - |b|..];
      assert ps == [ps[0]] + ps[1..];
    } else if ps != [] {
      SortedRest(ps);
    }
  }

  lemma SortedRest(ps: seq<Piece>)
    requires Sorted(ps) && ps != []
    ensures Sorted(ps[1..]) && forall i :: 0 <= i < |ps| ==> ps[0].pos <= ps[i].pos
  {
  }

  /** One entry of the list consulted. */
  lemma ReachStep(ps: seq<Piece>, nxt: int)
    requires ps != [] && ps[0].pos <= nxt
    ensures Reach(ps, nxt) == Reach(ps[1..], Max(nxt, ps[0].End()))
    ensures Beyond(ps, nxt) == Beyond(ps[1..], Max(nxt, ps[0].End()))
  {
  }

  lemma ReachStop(ps: seq<Piece>, nxt: int)
    requires ps == [] || ps[0].pos > nxt
    ensures Reach(ps, nxt) == nxt && Beyond(ps, nxt) == ps
  {
  }

  /** Insertion at the place where a search from the front stops. */
  lemma {:induction false} InsertAt(ps: seq<Piece>, p: Piece, i: nat)
    requires i <= |ps| && (forall j :: 0 <= j < i ==> ps[j].pos < p.pos)
    requires i < |ps| ==> ps[i].pos >= p.pos
    ensures Insert(ps, p) == ps[..i] + [p] + ps[i..]
  {
    if i > 0 {
      InsertAt(ps[1..], p, i - 1);
      assert ps[..i] == [ps[0]] + ps[1..][..i - 1];
      assert ps[1..][i - 1..] == ps[i..];
    }
  }

  lemma {:induction false} ReachAtLeast(ps: seq<Piece>, nxt: int)
    ensures nxt <= Reach(ps, nxt)
  {
    if ps != [] && ps[0].pos <= nxt {
      ReachAtLeast(ps[1..], Max(nxt, ps[0].End()));
    }
  }

  /** Insertion adds the new entry and loses none. */
  lemma {:induction false} InsertAdds(ps: seq<Piece>, p: Piece)
    ensures |Insert(ps, p)| == |ps| + 1
    ensures multiset(Insert(ps, p)) == multiset(ps) + multiset{p}
    ensures forall i :: 0 <= i < |Insert(ps, p)| ==> Insert(ps, p)[i] == p || Insert(ps, p)[i] in ps
  {
    if ps != [] && ps[0].pos < p.pos {
      InsertAdds(ps[1..], p);
      assert ps == [ps[0]] + ps[1..];
    }
  }

  /** Insertion keeps the order. */
  lemma {:induction false} InsertSorted(ps: seq<Piece>, p: Piece)
    requires Sorted(ps)
    ensures Sorted(Insert(ps, p))
  {
    if ps != [] && ps[0].pos < p.pos {
      InsertSorted(ps[1..], p);
      InsertAdds(ps[1..], p);
      var t := Insert(ps[1..], p);
      forall i | 0 <= i < |t| ensures ps[0].pos <= t[i].pos {
        if t[i] != p {
          var j :| 0 <= j < |ps[1..]| && ps[1..][j] == t[i];
          assert ps[0].pos <= ps[j + 1].pos;
        }
      }
    }
  }

  // The receiver -------------------------------------------------------------

  /** The assertions about ring space in process() cannot fail: whatever the
      segment, its bytes fit and so does everything the list releases. */
  lemma StoreOk(r: Receiver, pos: int, data: seq<byte>)
    requires Ok(r) && data != [] && r.nxt <= pos && pos + |data| <= r.nxt + r.Free()
    ensures Ok(Store(r, pos, data))
    ensures Store(r, pos, data).nxt + Store(r, pos, data).Free() == r.nxt + r.Free()
    ensures pos == r.nxt ==> Store(r, pos, data).nxt >= r.nxt + |data|
  {
    hide Overwrite, Reach, Beyond, Insert;
    var n := r.nxt + |data|;
    if pos == r.nxt {
      ReachBounds(r.pieces, n, r.nxt + r.Free());
      ReachIsMaximal(r.pieces, n);
    } else {
      InsertAdds(r.pieces, Piece(pos, |data|));
      InsertSorted(r.pieces, Piece(pos, |data|));
    }
  }

  lemma StoreSafe(r: Receiver, pos: int, data: seq<byte>)
    requires Safe(r) && data != [] && r.nxt <= pos && pos + |data| <= r.nxt + r.Free()
    ensures Safe(Store(r, pos, data))
    ensures Store(r, pos, data).nxt + Store(r, pos, data).Free() == r.nxt + r.Free()
  {
    hide Overwrite, Reach, Beyond, Insert;
    var n := r.nxt + |data|;
    if pos == r.nxt {
      ReachBounds(r.pieces, n, r.nxt + r.Free());
      ReachIsMaximal(r.pieces, n);
    } else {
      InsertAdds(r.pieces, Piece(pos, |data|));
      InsertSorted(r.pieces, Piece(pos, |data|));
    }
  }

  /** Of bytes in order, more is taken in than they bring exactly if the list releases
      some. */
  lemma BeyondIs(r: Receiver, data: seq<byte>)
    requires Safe(r)
    ensures var (p, d) := TrimFront(r.nxt, data, r.nxt);
            var e := TrimBack(p, d, r.nxt + r.Free());
            && (e != [] ==> p == r.nxt && |e| <= r.Free()
                            && (Store(r, p, e).nxt > r.nxt + |e| <==> Store(r, p, e).nxt > r.nxt + |data|))
  {
    hide Store;
    var (p, d) := TrimFront(r.nxt, data, r.nxt);
    var e := TrimBack(p, d, r.nxt + r.Free());
    if e != [] {
      StoreSafe(r, p, e);
      StoreAdvance(r, p, e);
    }
  }

  lemma TrimFits(r: Receiver, pos: int, data: seq<byte>)
    requires r.held <= |r.cells|
    ensures var (p, d) := TrimFront(pos, data, r.nxt);
            var e := TrimBack(p, d, r.nxt + r.Free());
            e != [] ==> pos <= p && r.nxt <= p && p + |e| <= r.nxt + r.Free() && p + |e| <= pos + |data|
                        && e == data[p - pos..p - pos + |e|]
  {
  }

  lemma ReceiveOk(r: Receiver, pos: int, data: seq<byte>)
    requires Ok(r)
    ensures Ok(Receive(r, pos, data))
    ensures Receive(r, pos, data).nxt + Receive(r, pos, data).Free() == r.nxt + r.Free()
    ensures r.nxt <= Receive(r, pos, data).nxt
  {
    hide TrimFront, TrimBack, Store;
    TrimFits(r, pos, data);
    var (p, d) := TrimFront(pos, data, r.nxt);
    var e := TrimBack(p, d, r.nxt + r.Free());
    if e != [] {
      StoreOk(r, p, e);
      StoreAdvance(r, p, e);
    }
  }

  lemma StoreAdvance(r: Receiver, pos: int, data: seq<byte>)
    requires r.held <= |r.cells| && data != [] && r.nxt <= pos && pos + |data| <= r.nxt + r.Free()
    ensures if pos == r.nxt then Store(r, pos, data).nxt >= r.nxt + |data| else Store(r, pos, data).nxt == r.nxt
    ensures Store(r, pos, data).held == r.held + (Store(r, pos, data).nxt - r.nxt)
    ensures Store(r, pos, data).wnd == Sub(r.wnd, Store(r, pos, data).nxt - r.nxt)
    ensures |Store(r, pos, data).cells| == |r.cells|
  {
    hide Overwrite, Reach, Beyond, Insert;
    ReachAtLeast(r.pieces, r.nxt + |data|);
    if pos != r.nxt {
      assert Sub(r.wnd, 0) == r.wnd;
    }
  }

  /** A FIN is counted exactly once, although two places in process() may count
      it: in order it moves the position wanted by one, and every further copy,
      like any FIN out of order, moves nothing. */
  lemma FinCountsOnce(r: Receiver, pos: int)
    ensures ReceiveFin(r, pos, []) == r.(nxt := r.nxt + if pos == r.nxt then 1 else 0)
    ensures ReceiveFin(ReceiveFin(r, pos, []), pos, []) == ReceiveFin(r, pos, [])
  {
  }

  lemma NothingReceived(r: Receiver)
    requires r.pieces == [] && r.held <= |r.cells|
    ensures Ok(r) && Safe(r)
  {
  }

  /** Ring cell `x` positions past the one wanted, after a write. */
  lemma StoredCell(r: Receiver, pos: int, data: seq<byte>, x: int)
    requires r.held <= |r.cells| && r.nxt <= pos && pos + |data| <= r.nxt + r.Free()
    requires r.nxt - r.held <= x < r.nxt + r.Free()
    ensures Overwrite(r.cells, r.held + (pos - r.nxt), data)[r.held + (x - r.nxt)] ==
            if pos <= x < pos + |data| then data[x - pos] else r.cells[r.held + (x - r.nxt)]
  {
    OverwriteAt(r.cells, r.held + (pos - r.nxt), data, r.held + (x - r.nxt));
  }

  /** A write of stream bytes keeps in place what was in place, and puts the
      written bytes in place; the valid bytes are not touched. */
  lemma WriteInPlace(r: Receiver, stream: seq<byte>, pos: int, data: seq<byte>, x: int)
    requires r.held <= |r.cells| && r.nxt <= pos && pos + |data| <= r.nxt + r.Free()
    requires 0 <= pos && pos + |data| <= |stream| && data == stream[pos..pos + |data|]
    ensures var w := r.(cells := Overwrite(r.cells, r.held + (pos - r.nxt), data));
            && w.cells[..r.held] == r.cells[..r.held]
            && (InPlace(r, stream, x) || pos <= x < pos + |data| ==> InPlace(w, stream, x))
  {
    hide Overwrite;
    var w := r.(cells := Overwrite(r.cells, r.held + (pos - r.nxt), data));
    forall k | 0 <= k < r.held ensures w.cells[k] == r.cells[k] {
      StoredCell(r, pos, data, r.nxt - r.held + k);
    }
    if InPlace(r, stream, x) || pos <= x < pos + |data| {
      StoredCell(r, pos, data, x);
    }
  }

  /** Bytes out of order: listed, and every listed byte is in place. */
  lemma StoreOutOfOrder(r: Receiver, stream: seq<byte>, base: nat, got: seq<byte>, pos: int, data: seq<byte>)
    requires Faithful(r, stream, base, got)
    requires data != [] && r.nxt < pos && pos + |data| <= r.nxt + r.Free()
    requires pos + |data| <= |stream| && data == stream[pos..pos + |data|]
    ensures Faithful(Store(r, pos, data), stream, base, got)
  {
    hide Overwrite, Insert, InPlace;
    StoreOk(r, pos, data);
    InsertAdds(r.pieces, Piece(pos, |data|));
    var s := Store(r, pos, data);
    var w := r.(cells := s.cells);
    WriteInPlace(r, stream, pos, data, pos);
    forall i, x | 0 <= i < |s.pieces| && Covers(s.pieces[i], x) ensures InPlace(s, stream, x) {
      if s.pieces[i] != Piece(pos, |data|) {
        var i' :| 0 <= i' < |r.pieces| && r.pieces[i'] == s.pieces[i];
        assert Covers(r.pieces[i'], x);
      }
      WriteInPlace(r, stream, pos, data, x);
      SameRing(w, s, stream, x);
    }
  }

  /** Being in place depends on the ring and on where it starts only. */
  lemma SameRing(w: Receiver, s: Receiver, stream: seq<byte>, x: int)
    requires w.cells == s.cells && w.nxt - w.held == s.nxt - s.held
    ensures InPlace(w, stream, x) <==> InPlace(s, stream, x)
  {
    assert w.held + (x - w.nxt) == s.held + (x - s.nxt);
  }

  /** Bytes in order: they and the pieces they connect to become valid. */
  lemma StoreInOrder(r: Receiver, stream: seq<byte>, base: nat, got: seq<byte>, data: seq<byte>)
    requires Faithful(r, stream, base, got)
    requires data != [] && |data| <= r.Free()
    requires r.nxt + |data| <= |stream| && data == stream[r.nxt..r.nxt + |data|]
    ensures Faithful(Store(r, r.nxt, data), stream, base, got)
  {
    hide Overwrite, Reach, Beyond, InPlace;
    var s := Store(r, r.nxt, data);
    var w := r.(cells := s.cells);
    var n := r.nxt + |data|;
    StoreOk(r, r.nxt, data);
    StoreAdvance(r, r.nxt, data);
    ReachIsMaximal(r.pieces, n);
    WriteInPlace(r, stream, r.nxt, data, r.nxt);
    forall x | r.nxt <= x < s.nxt ensures InPlace(w, stream, x) {
      WriteInPlace(r, stream, r.nxt, data, x);
      if n <= x {
        var i := ReachIsCovered(r.pieces, n, x);
      }
    }
    ContentsGrow(w, s.nxt, stream, base, got);
    forall i, x | 0 <= i < |s.pieces| && Covers(s.pieces[i], x) ensures InPlace(s, stream, x) {
      var i' := |r.pieces| - |s.pieces| + i;
      assert r.pieces[i'] == s.pieces[i];
      WriteInPlace(r, stream, r.nxt, data, x);
      SameRing(w, s, stream, x);
    }
  }

  /** Declaring bytes in place to be valid extends the contents by the stream. */
  lemma ContentsGrow(w: Receiver, n: int, stream: seq<byte>, base: nat, got: seq<byte>)
    requires w.held <= |w.cells| && base <= w.nxt <= |stream|
    requires w.nxt < n && forall x :: w.nxt <= x < n ==> InPlace(w, stream, x)
    requires got + w.cells[..w.held] == stream[base..w.nxt]
    ensures n <= |stream| && w.held + (n - w.nxt) <= |w.cells|
    ensures got + w.cells[..w.held + (n - w.nxt)] == stream[base..n]
  {
    assert InPlace(w, stream, n - 1);
    forall y | w.held <= y < w.held + (n - w.nxt) ensures w.cells[y] == stream[w.nxt + (y - w.held)] {
      assert InPlace(w, stream, w.nxt + (y - w.held));
    }
    assert w.cells[..w.held + (n - w.nxt)] == w.cells[..w.held] + stream[w.nxt..n];
    assert stream[base..n] == stream[base..w.nxt] + stream[w.nxt..n];
  }

  lemma SliceOfSlice(s: seq<byte>, pos: nat, data: seq<byte>, p: int, e: seq<byte>)
    requires pos + |data| <= |s| && data == s[pos..pos + |data|]
    requires pos <= p && p + |e| <= pos + |data| && e == data[p - pos..p - pos + |e|]
    ensures e == s[p..p + |e|]
  {
    var q := p - pos;
    forall i | 0 <= i < |e| ensures e[i] == s[p..p + |e|][i] {
      assert e[i] == data[q + i] == s[pos..pos + |data|][q + i] == s[pos + (q + i)];
    }
  }

  /** Any segment cut from the stream, old, new, overlapping or duplicate,
      leaves the receiver faithful to the stream. */
  lemma ReceiveKeepsStream(r: Receiver, stream: seq<byte>, base: nat, got: seq<byte>, pos: nat, data: seq<byte>)
    requires Faithful(r, stream, base, got)
    requires pos + |data| <= |stream| && data == stream[pos..pos + |data|]
    ensures Faithful(Receive(r, pos, data), stream, base, got)
  {
    hide TrimFront, TrimBack, Store, Landed;
    TrimFits(r, pos, data);
    var (p, d) := TrimFront(pos, data, r.nxt);
    var e := TrimBack(p, d, r.nxt + r.Free());
    if e != [] {
      SliceOfSlice(stream, pos, data, p, e);
      if p == r.nxt {
        StoreInOrder(r, stream, base, got, e);
      } else {
        StoreOutOfOrder(r, stream, base, got, p, e);
      }
    }
  }

  /** Reading hands over the front of the contents and keeps every piece where
      it is in the stream. */
  lemma TakeFrontKeepsStream(r: Receiver, stream: seq<byte>, base: nat, got: seq<byte>, n: nat, wnd: u32)
    requires Faithful(r, stream, base, got) && n <= r.held
    ensures Faithful(TakeFront(r, n, wnd), stream, base, got + r.cells[..n])
  {
    hide Rotate;
    var s := TakeFront(r, n, wnd);
    forall k | 0 <= k < |r.cells| - n ensures s.cells[k] == r.cells[n + k] {
      RotateAt(r.cells, n, k);
    }
    assert r.cells[..n] + s.cells[..s.held] == r.cells[..r.held];
    assert (got + r.cells[..n]) + s.cells[..s.held] == got + (r.cells[..n] + s.cells[..s.held]);
    forall i, x | 0 <= i < |s.pieces| && Covers(s.pieces[i], x) ensures InPlace(s, stream, x) {
      assert Covers(r.pieces[i], x) && InPlace(r, stream, x);
    }
  }

  /** More stream does not disturb a receiver. */
  lemma StreamGrows(r: Receiver, stream: seq<byte>, more: seq<byte>, base: nat, got: seq<byte>)
    requires Faithful(r, stream, base, got)
    ensures Faithful(r, stream + more, base, got)
  {
    assert (stream + more)[base..r.nxt] == stream[base..r.nxt];
    forall i, x | 0 <= i < |r.pieces| && Covers(r.pieces[i], x) ensures InPlace(r, stream + more, x) {
      assert InPlace(r, stream, x);
    }
  }

  // Any arrival order --------------------------------------------------------

  datatype Chunk = Chunk(pos: nat, data: seq<byte>)

  function ReceiveAll(r: Receiver, cs: seq<Chunk>): (s: Receiver)
    requires r.held <= |r.cells|
    decreases |cs|
  {
    if cs == [] then r
    else
      var s := Receive(r, cs[0].pos, cs[0].data);
      if s.held <= |s.cells| then ReceiveAll(s, cs[1..]) else s
  }

  ghost predicate CutFrom(c: Chunk, stream: seq<byte>) {
    c.pos + |c.data| <= |stream| && c.data == stream[c.pos..c.pos + |c.data|]
  }

  /** Whatever segments of one stream arrive, in whatever order. */
  lemma {:induction false} AnyArrivalOrder(r: Receiver, stream: seq<byte>, base: nat, got: seq<byte>, cs: seq<Chunk>)
    requires Faithful(r, stream, base, got)
    requires forall i :: 0 <= i < |cs| ==> CutFrom(cs[i], stream)
    ensures Faithful(ReceiveAll(r, cs), stream, base, got)
    ensures ReceiveAll(r, cs).nxt + ReceiveAll(r, cs).Free() == r.nxt + r.Free()
    decreases |cs|
  {
    if cs != [] {
      assert CutFrom(cs[0], stream);
      ReceiveKeepsStream(r, stream, base, got, cs[0].pos, cs[0].data);
      ReceiveOk(r, cs[0].pos, cs[0].data);
      AnyArrivalOrder(Receive(r, cs[0].pos, cs[0].data), stream, base, got, cs[1..]);
    }
  }

  /** Position `x` has been delivered or waits in the list. */
  ghost predicate Has(r: Receiver, x: int) {
    x < r.nxt || exists i :: 0 <= i < |r.pieces| && Covers(r.pieces[i], x)
  }

  /** A segment adds its bytes, as far as they fit, and loses none. */
  lemma StoreHas(r: Receiver, pos: int, data: seq<byte>, x: int)
    requires Ok(r) && data != [] && r.nxt <= pos && pos + |data| <= r.nxt + r.Free()
    ensures Has(r, x) || pos <= x < pos + |data| ==> Has(Store(r, pos, data), x)
  {
    hide Overwrite, Reach, Beyond, Insert;
    var s := Store(r, pos, data);
    StoreAdvance(r, pos, data);
    if pos == r.nxt {
      ReachIsMaximal(r.pieces, r.nxt + |data|);
      ReachAtLeast(r.pieces, r.nxt + |data|);
      if x >= s.nxt && Has(r, x) {
        var i :| 0 <= i < |r.pieces| && Covers(r.pieces[i], x);
        var gone := |r.pieces| - |s.pieces|;
        if i < gone {
          ReleasedBelow(r.pieces, r.nxt + |data|, i);
        } else {
          assert s.pieces[i - gone] == r.pieces[i];
        }
      }
    } else {
      InsertAdds(r.pieces, Piece(pos, |data|));
      InsertIndex(r.pieces, Piece(pos, |data|), Piece(pos, |data|));
      if x >= s.nxt && Has(r, x) {
        var i :| 0 <= i < |r.pieces| && Covers(r.pieces[i], x);
        InsertIndex(r.pieces, Piece(pos, |data|), r.pieces[i]);
      }
    }
  }

  lemma {:induction false} ReleasedBelow(ps: seq<Piece>, nxt: int, i: nat)
    requires i < |ps| - |Beyond(ps, nxt)|
    ensures ps[i].End() <= Reach(ps, nxt)
  {
    if ps != [] && ps[0].pos <= nxt {
      ReachAtLeast(ps[1..], Max(nxt, ps[0].End()));
      if i > 0 {
        ReleasedBelow(ps[1..], Max(nxt, ps[0].End()), i - 1);
      }
    }
  }

  lemma {:induction false} InsertIndex(ps: seq<Piece>, p: Piece, q: Piece)
    requires q == p || q in ps
    ensures q in Insert(ps, p)
  {
    if ps != [] && ps[0].pos < p.pos && q != ps[0] {
      InsertIndex(ps[1..], p, q);
    }
  }

  lemma ReceiveHas(r: Receiver, pos: int, data: seq<byte>, x: int)
    requires Ok(r)
    ensures Has(r, x) || (pos <= x < pos + |data| && x < r.nxt + r.Free()) ==> Has(Receive(r, pos, data), x)
  {
    hide Store;
    TrimFits(r, pos, data);
    var (p, d) := TrimFront(pos, data, r.nxt);
    var e := TrimBack(p, d, r.nxt + r.Free());
    if e != [] {
      StoreHas(r, p, e, x);
      StoreOk(r, p, e);
      StoreAdvance(r, p, e);
    }
  }

  ghost predicate Arrived(cs: seq<Chunk>, x: int) {
    exists i :: 0 <= i < |cs| && cs[i].pos <= x < cs[i].pos + |cs[i].data|
  }

  lemma {:induction false} ReceiveAllHas(r: Receiver, cs: seq<Chunk>, x: int)
    requires Ok(r) && x < r.nxt + r.Free() && (Has(r, x) || Arrived(cs, x))
    ensures Ok(ReceiveAll(r, cs)) && Has(ReceiveAll(r, cs), x)
    decreases |cs|
  {
    if cs != [] {
      hide Receive;
      var s := Receive(r, cs[0].pos, cs[0].data);
      ReceiveHas(r, cs[0].pos, cs[0].data, x);
      ReceiveOk(r, cs[0].pos, cs[0].data);
      if !Has(r, x) {
        var i :| 0 <= i < |cs| && cs[i].pos <= x < cs[i].pos + |cs[i].data|;
        if i > 0 {
          assert cs[1..][i - 1] == cs[i];
          assert Arrived(cs[1..], x);
        }
      }
      ReceiveAllHas(s, cs[1..], x);
    }
  }

  /** Once every byte up to `m` has arrived, in any order and however cut, all of
      them have been delivered. */
  lemma ArrivedMeansDelivered(r: Receiver, cs: seq<Chunk>, m: int)
    requires Ok(r) && r.nxt <= m <= r.nxt + r.Free()
    requires forall x :: r.nxt <= x < m ==> Arrived(cs, x)
    ensures ReceiveAll(r, cs).nxt >= m
  {
    hide ReceiveAll;
    var s := ReceiveAll(r, cs);
    ReceiveAllAdvances(r, cs);
    if s.nxt < m {
      assert Arrived(cs, s.nxt);
      ReceiveAllHas(r, cs, s.nxt);
    }
  }

  lemma {:induction false} ReceiveAllAdvances(r: Receiver, cs: seq<Chunk>)
    requires Ok(r)
    ensures r.nxt <= ReceiveAll(r, cs).nxt
    decreases |cs|
  {
    if cs != [] {
      ReceiveOk(r, cs[0].pos, cs[0].data);
      ReceiveAllAdvances(Receive(r, cs[0].pos, cs[0].data), cs[1..]);
    }
  }

  /** No segment moves the position wanted back. */
  lemma ReceiveSegmentAdvances(r: Receiver, fin: bool, ignored: bool, pos: int, data: seq<byte>)
    requires r.held <= |r.cells|
    ensures r.nxt <= ReceiveSegment(r, fin, ignored, pos, data).nxt
  {
    hide TrimFront, TrimBack, Store;
    TrimFits(r, pos, data);
    var (p, d) := TrimFront(pos, data, r.nxt);
    var e := TrimBack(p, d, r.nxt + r.Free());
    if !fin && !ignored && e != [] {
      StoreAdvance(r, p, e);
    }
  }

  lemma TakeFrontSafe(r: Receiver, n: nat, wnd: u32)
    requires Safe(r) && n <= r.held
    ensures Safe(TakeFront(r, n, wnd))
  {
  }

  /** The cell of listed byte `x` and the cell `k` places before it hold the same. */
  ghost predicate Repeated(r: Receiver, x: int, k: int) {
    var c := r.held + (x - r.nxt);
    0 <= c - k && c < |r.cells| && 0 <= c && c - k < |r.cells| && r.cells[c - k] == r.cells[c]
  }

  /** Control bytes take positions but no ring space.  When `k` of them are consumed
      every listed byte has to be found `k` cells further to the front, so the list
      stays right exactly if nothing is listed or every listed cell repeats the one
      `k` places before it. */
  lemma ControlBytesInPlace(r: Receiver, stream: seq<byte>, pos: int, data: seq<byte>)
    requires r.held <= |r.cells| && Landed(r, stream)
    ensures var t := ReceiveIgnored(r, pos, data);
            Landed(t, stream) <==>
              forall i, x :: 0 <= i < |r.pieces| && Covers(r.pieces[i], x) ==> Repeated(r, x, t.nxt - r.nxt)
  {
    hide TrimFront, TrimBack, Covers;
    var t := ReceiveIgnored(r, pos, data);
    var k := t.nxt - r.nxt;
    forall i, x | 0 <= i < |r.pieces| && Covers(r.pieces[i], x) ensures InPlace(t, stream, x) <==> Repeated(r, x, k) {
      ListedInPlace(r, t, stream, x);
    }
    if Landed(t, stream) {
      forall i, x | 0 <= i < |r.pieces| && Covers(r.pieces[i], x) ensures Repeated(r, x, k) {
        assert Covers(t.pieces[i], x);
      }
    }
  }

  lemma ListedInPlace(r: Receiver, t: Receiver, stream: seq<byte>, x: int)
    requires t == r.(nxt := t.nxt) && InPlace(r, stream, x)
    ensures InPlace(t, stream, x) <==> Repeated(r, x, t.nxt - r.nxt)
  {
    assert t.held + (x - t.nxt) == r.held + (x - r.nxt) - (t.nxt - r.nxt);
  }

  /** What goes wrong otherwise.  Of a stream of one control byte and the data
      5, 6, the byte 6 comes first, then the control byte, then the byte 5: what
      is then handed to the application is 5, 0. */
  lemma DataBeforeConnect()
    ensures var r := Receiver(0, 4, [0, 0, 0, 0], 0, []);
            var t := Receive(ReceiveIgnored(Receive(r, 2, [6]), 0, [0]), 1, [5]);
            t.nxt == 3 && t.held == 2 && t.cells[..2] == [5, 0]
  {
    var r := Receiver(0, 4, [0, 0, 0, 0], 0, []);
    var s := Receive(r, 2, [6]);
    assert s == Receiver(0, 4, [0, 0, 6, 0], 0, [Piece(2, 1)]);
    var u := ReceiveIgnored(s, 0, [0]);
    assert u == s.(nxt := 1);
    assert Reach([Piece(2, 1)], 2) == Reach([Piece(2, 1)][1..], 3) == 3;
    assert Receive(u, 1, [5]).cells == [5, 0, 6, 0];
  }
}
