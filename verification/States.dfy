/** The connection states and the transitions `set_state` accepts. */
module States {

  datatype TcpState =
    | Listen | SynSent | SynReceived | Established | Closed
    | FinWait1 | FinWait2 | Closing | TimeWait | CloseWait | LastAck

  /** States in which this end has sent a FIN. */
  predicate HasSentFin(s: TcpState) {
    match s
    case Listen | SynSent | SynReceived | Established | CloseWait => false
    case Closed | FinWait1 | FinWait2 | Closing | TimeWait | LastAck => true
  }

  /** States in which this end has received a FIN. */
  predicate HasReceivedFin(s: TcpState) {
    match s
    case Listen | SynSent | SynReceived | Established | FinWait1 | FinWait2 => false
    case Closed | Closing | TimeWait | CloseWait | LastAck => true
  }

  /** The assertion of `set_state`: page 23 of RFC 793 and section 4.2.2.8 of
      RFC 1122. */
  predicate Allowed(o: TcpState, n: TcpState) {
    match o
    case Closed => n == SynSent || n == Listen
    case Listen => n == Closed || n == SynSent || n == SynReceived
    case SynSent => n == Closed || n == SynReceived || n == Established
    case SynReceived => n == Established || n == FinWait1 || n == Listen
    case Established => n == FinWait1 || n == CloseWait
    case FinWait1 => n == FinWait2 || n == Closing || n == TimeWait
    case CloseWait => n == LastAck
    case FinWait2 => n == TimeWait
    case Closing => n == TimeWait
    case LastAck => n == Closed
    case TimeWait => n == Closed
  }

  /** How far a connection has come. */
  function Rank(s: TcpState): nat {
    match s
    case Listen => 0
    case SynSent => 1
    case SynReceived => 2
    case Established => 3
    case FinWait1 | CloseWait => 4
    case FinWait2 | Closing | LastAck => 5
    case TimeWait => 6
    case Closed => 7
  }

  /** A transition that a socket may make: allowed, and forward. */
  predicate Forward(o: TcpState, n: TcpState) { Allowed(o, n) && Rank(o) < Rank(n) }

  /** The transitions that closing a socket goes through. */
  lemma Downhill()
    ensures Forward(SynReceived, FinWait1) && Forward(Established, FinWait1) && Forward(FinWait1, FinWait2)
    ensures Forward(FinWait2, TimeWait) && Forward(Closing, TimeWait) && Forward(CloseWait, LastAck)
    ensures Forward(Listen, Closed) && Forward(SynSent, Closed) && Forward(TimeWait, Closed) && Forward(LastAck, Closed)
  {
  }

  /** The transitions of the handshake. */
  lemma Uphill()
    ensures Forward(Listen, SynSent) && Forward(Listen, SynReceived)
    ensures Forward(SynSent, Established) && Forward(SynReceived, Established)
  {
  }

  /** The state after a connect message was heard. */
  function Greeted(s: TcpState): TcpState {
    if s == Listen then SynReceived else if s == SynSent then Established else s
  }

  /** A history of states, oldest first. */
  ghost predicate History(h: seq<TcpState>) {
    && h != [] && h[0] == Listen
    && forall i :: 0 < i < |h| ==> Forward(h[i - 1], h[i])
  }

  /** Once a FIN has been received it stays so. */
  lemma {:induction false} FinIsFinal(h: seq<TcpState>, i: nat, j: nat)
    requires History(h) && i <= j < |h| && HasReceivedFin(h[i])
    ensures HasReceivedFin(h[j])
    decreases j - i
  {
    if i < j {
      assert Forward(h[i + 1 - 1], h[i + 1]);
      FinIsFinal(h, i + 1, j);
    }
  }

  /** In every history CLOSED is final and entered only from LISTEN, SYN-SENT,
      TIME-WAIT or LAST-ACK, no state comes twice, and there are at most seven
      changes. */
  lemma {:induction false} HistoryIsBounded(h: seq<TcpState>)
    requires History(h)
    ensures |h| <= Rank(h[|h| - 1]) + 1 <= 8
    ensures forall i :: 0 <= i < |h| - 1 ==> h[i] != Closed
    ensures forall i, j :: 0 <= i < j < |h| ==> Rank(h[i]) < Rank(h[j]) && h[i] != h[j]
    ensures |h| > 1 && h[|h| - 1] == Closed ==> h[|h| - 2] in {Listen, SynSent, TimeWait, LastAck}
    decreases |h|
  {
    if |h| > 1 {
      var g := h[..|h| - 1];
      HistoryIsBounded(g);
      assert Forward(h[|h| - 2], h[|h| - 1]);
      forall i, j | 0 <= i < j < |h| ensures Rank(h[i]) < Rank(h[j]) && h[i] != h[j] {
        if j < |h| - 1 {
          assert g[i] == h[i] && g[j] == h[j];
        } else if i < |h| - 2 {
          assert Rank(g[i]) < Rank(g[|g| - 1]);
        }
      }
      assert forall i :: 0 <= i < |g| - 1 ==> h[i] == g[i];
    }
  }
}
