/** Check lists: pairs in priority order, and what is done to their states. */
module CheckList {
  import opened Seq32
  import opened Candidates

  datatype CheckState = Waiting | InProgress | Succeeded | Failed | Frozen | Cancelled | Discovered

  /** A STUN retransmission timer: when it runs out next, the delay that led
      there, and how many retransmissions are left. */
  datatype StunTimer = StunTimer(deadline: int, delay: nat, left: nat)

  datatype Transaction = NoMessage | Pending(timer: StunTimer)

  /** A candidate pair: component, the priorities of its candidates, its own, and
      the check made of it. */
  datatype CheckPair = CheckPair(
    component: nat, local: u32, remote: u32, priority: nat,
    state: CheckState, nominated: bool, message: Transaction, nextTick: int)

  predicate IsValid(p: CheckPair) { p.state == Succeeded || p.state == Discovered }

  predicate Unfinished(p: CheckPair) { p.state == Frozen || p.state == Waiting || p.state == InProgress }

  // Order --------------------------------------------------------------------

  /** Descending priority, up to the bit that depends on the roles. */
  ghost predicate Ordered(l: seq<CheckPair>) {
    forall i, j :: 0 <= i < j < |l| ==> l[j].priority / 2 <= l[i].priority / 2
  }

  /** agent_candidate_pair_priority */
  function RolePriority(controlling: bool, local: u32, remote: u32): nat {
    if controlling then PairPriority(local, remote) else PairPriority(remote, local)
  }

  /** Both agents give a pair the same priority, and its last bit tells whether the
      candidate of the controlling one has the greater priority of the two. */
  lemma BothEndsAgree(controlling: bool, local: u32, remote: u32)
    requires local < 0x8000_0000 && remote < 0x8000_0000
    ensures RolePriority(controlling, local, remote) == RolePriority(!controlling, remote, local)
    ensures RolePriority(controlling, local, remote) % 2 == 1 <==>
            if controlling then local > remote else remote > local
  {
    PairPriorityParts(local, remote);
    PairPriorityParts(remote, local);
  }

  /** Every pair has the priority that its candidates and the role give it. */
  ghost predicate Priced(l: seq<CheckPair>, controlling: bool) {
    forall i :: 0 <= i < |l| ==> l[i].priority == RolePriority(controlling, l[i].local, l[i].remote)
  }

  /** conn_check_compare: negative when `a` comes first. */
  function Compare(a: CheckPair, b: CheckPair): int {
    if a.priority > b.priority then -1 else if a.priority < b.priority then 1 else 0
  }

  /** g_slist_insert_sorted: before the first pair that does not come first. */
  method InsertSorted(l: seq<CheckPair>, p: CheckPair) returns (r: seq<CheckPair>, at: nat)
    ensures at <= |l| && r == l[..at] + [p] + l[at..]
    ensures forall i :: 0 <= i < at ==> l[i].priority > p.priority
    ensures at < |l| ==> l[at].priority <= p.priority
  {
    var i := 0;
    while i < |l| && Compare(p, l[i]) > 0
      invariant i <= |l| && forall j :: 0 <= j < i ==> l[j].priority > p.priority
    {
      i := i + 1;
    }
    at := i;
    r := l[..i] + [p] + l[i..];
  }

  /** Insertion by full priority keeps an order that is up to the last bit. */
  lemma InsertKeepsOrder(l: seq<CheckPair>, p: CheckPair, at: nat)
    requires Ordered(l) && at <= |l|
    requires (forall i :: 0 <= i < at ==> l[i].priority > p.priority) && (at < |l| ==> l[at].priority <= p.priority)
    ensures Ordered(l[..at] + [p] + l[at..])
  {
    var r := l[..at] + [p] + l[at..];
    forall i, j | 0 <= i < j < |r| ensures r[j].priority / 2 <= r[i].priority / 2 {
      var i' := if i <= at then i else i - 1;
      var j' := if j <= at then j else j - 1;
      if i == at {
        assert at < |l| && l[j'].priority / 2 <= l[at].priority / 2;
      } else if j != at {
        assert r[i] == l[i'] && r[j] == l[j'];
      }
    }
  }

  /** priv_recalculate_pair_priorities: new priorities, no new order. */
  method Recalculate(l: seq<CheckPair>, controlling: bool) returns (r: seq<CheckPair>)
    ensures |r| == |l| && Priced(r, controlling)
    ensures forall i :: 0 <= i < |l| ==> r[i] == l[i].(priority := r[i].priority)
  {
    r := l;
    for j := 0 to |l|
      invariant |r| == |l|
      invariant forall i :: 0 <= i < j ==> r[i] == l[i].(priority := RolePriority(controlling, l[i].local, l[i].remote))
      invariant forall i :: j <= i < |l| ==> r[i] == l[i]
    {
      r := r[j := r[j].(priority := RolePriority(controlling, r[j].local, r[j].remote))];
    }
  }

  /** A change of role needs no new sorting, up to the last bit. */
  lemma RoleSwitchKeepsOrder(l: seq<CheckPair>, r: seq<CheckPair>, controlling: bool)
    requires Ordered(l) && Priced(l, !controlling) && |r| == |l| && Priced(r, controlling)
    requires forall i :: 0 <= i < |l| ==> r[i] == l[i].(priority := r[i].priority)
    ensures Ordered(r)
  {
    hide PairPriority;
    forall i, j | 0 <= i < j < |r| ensures r[j].priority / 2 <= r[i].priority / 2 {
      RoleSwapIsSmall(l[i].local, l[i].remote);
      RoleSwapIsSmall(l[j].local, l[j].remote);
    }
  }

  /** Descending priority, the last bit included. */
  ghost predicate FullyOrdered(l: seq<CheckPair>) {
    forall i, j :: 0 <= i < j < |l| ==> l[j].priority <= l[i].priority
  }

  /** Two pairs with the same two candidate priorities, the larger one local in one
      of them and remote in the other. */
  ghost predicate Mirrored(p: CheckPair, q: CheckPair) {
    p.priority / 2 == q.priority / 2 && p.priority != q.priority
  }

  /** A change of role keeps the full order exactly if no two pairs mirror each
      other: mirrored pairs then stand the wrong way round. */
  lemma RoleSwitchDisorders(l: seq<CheckPair>, r: seq<CheckPair>, controlling: bool)
    requires FullyOrdered(l) && Priced(l, !controlling) && |r| == |l| && Priced(r, controlling)
    requires forall i :: 0 <= i < |l| ==> r[i] == l[i].(priority := r[i].priority)
    requires forall i :: 0 <= i < |l| ==> l[i].local < 0x8000_0000 && l[i].remote < 0x8000_0000
    ensures FullyOrdered(r) <==> forall i, j :: 0 <= i < j < |l| ==> !Mirrored(l[i], l[j])
  {
    hide RolePriority, Mirrored;
    forall i, j | 0 <= i < j < |l| ensures r[j].priority <= r[i].priority <==> !Mirrored(l[i], l[j]) {
      MirroredSwap(l[i], l[j], r[i].priority, r[j].priority, controlling);
    }
  }

  /** Such a list: candidates of priorities 2 and 1, one pair each way round. */
  lemma RoleSwitchCanDisorder()
    ensures var p := CheckPair(1, 2, 1, RolePriority(true, 2, 1), Waiting, false, NoMessage, 0);
            var q := CheckPair(1, 1, 2, RolePriority(true, 1, 2), Waiting, false, NoMessage, 0);
            && FullyOrdered([p, q]) && Priced([p, q], true)
            && !FullyOrdered([p.(priority := RolePriority(false, 2, 1)), q.(priority := RolePriority(false, 1, 2))])
  {
    var p := CheckPair(1, 2, 1, RolePriority(false, 2, 1), Waiting, false, NoMessage, 0);
    var q := CheckPair(1, 1, 2, RolePriority(false, 1, 2), Waiting, false, NoMessage, 0);
    assert [p, q][1].priority > [p, q][0].priority;
  }

  /** Two pairs in order, and what a change of role makes of their priorities. */
  lemma MirroredSwap(p: CheckPair, q: CheckPair, a: nat, b: nat, controlling: bool)
    requires p.local < 0x8000_0000 && p.remote < 0x8000_0000 && q.local < 0x8000_0000 && q.remote < 0x8000_0000
    requires p.priority == RolePriority(!controlling, p.local, p.remote)
              && a == RolePriority(controlling, p.local, p.remote)
    requires q.priority == RolePriority(!controlling, q.local, q.remote)
              && b == RolePriority(controlling, q.local, q.remote)
    requires q.priority <= p.priority
    ensures b <= a <==> !Mirrored(p, q)
  {
    hide PairPriority;
    SameHalf(p.local, p.remote, p.remote, p.local);
    SameHalf(q.local, q.remote, q.remote, q.local);
    SameHalf(q.local, q.remote, p.local, p.remote);
    SameHalf(q.remote, q.local, p.remote, p.local);
  }

  // The size limit -----------------------------------------------------------

  function Alive(l: seq<CheckPair>): nat {
    if l == [] then 0 else Alive(l[..|l| - 1]) + (if l[|l| - 1].state != Cancelled then 1 else 0)
  }

  /** Pairs that come after `limit` others still on the list are cancelled. */
  ghost predicate Limited(l: seq<CheckPair>, r: seq<CheckPair>, limit: nat) {
    && |r| == |l|
    && forall i :: 0 <= i < |l| ==>
         r[i] == if l[i].state != Cancelled && Alive(l[..i]) >= limit then l[i].(state := Cancelled) else l[i]
  }

  /** priv_limit_conn_check_list_size */
  method LimitSize(l: seq<CheckPair>, limit: nat) returns (r: seq<CheckPair>)
    ensures Limited(l, r, limit)
  {
    r := l;
    var valid := 0;
    for j := 0 to |l|
      invariant |r| == |l| && valid == Alive(l[..j])
      invariant forall i :: j <= i < |l| ==> r[i] == l[i]
      invariant forall i :: 0 <= i < j ==>
                  r[i] == if l[i].state != Cancelled && Alive(l[..i]) >= limit then l[i].(state := Cancelled) else l[i]
    {
      assert l[..j + 1][..j] == l[..j];
      if r[j].state != Cancelled {
        valid := valid + 1;
        if valid > limit {
          r := r[j := r[j].(state := Cancelled)];
        }
      }
    }
  }

  /** What the limit leaves: as many pairs as allowed and there are.  None that was
      cancelled is better than any that is left: at all on a fully ordered list,
      but for the last bit on one that has seen a change of role. */
  lemma LimitKeepsBest(l: seq<CheckPair>, r: seq<CheckPair>, limit: nat)
    requires Ordered(l) && Limited(l, r, limit)
    ensures Ordered(r) && Alive(r) == Min(limit, Alive(l))
    ensures |r| == |l|
    ensures forall i, j ::
              && 0 <= i < |l| && 0 <= j < |l| && l[i].state != Cancelled
              && r[i].state == Cancelled && r[j].state != Cancelled ==>
              r[i].priority / 2 <= r[j].priority / 2 && (FullyOrdered(l) ==> r[i].priority <= r[j].priority)
  {
    hide Alive;
    LimitCount(l, r, limit, |l|);
    assert l[..|l|] == l && r[..|r|] == r;
    forall i, j | 0 <= i < |l| && 0 <= j < |l| && l[i].state != Cancelled && r[i].state == Cancelled
        && r[j].state != Cancelled
      ensures r[i].priority / 2 <= r[j].priority / 2 && (FullyOrdered(l) ==> r[i].priority <= r[j].priority)
    {
      if i < j {
        AliveGrows(l, i, j);
      }
    }
  }

  lemma LimitKeepsPrices(l: seq<CheckPair>, r: seq<CheckPair>, limit: nat, controlling: bool)
    requires Limited(l, r, limit) && Priced(l, controlling)
    ensures Priced(r, controlling)
  {
    hide RolePriority, Alive;
    assert forall i :: 0 <= i < |l| ==>
        r[i].priority == l[i].priority && r[i].local == l[i].local && r[i].remote == l[i].remote;
  }

  lemma {:induction false} LimitCount(l: seq<CheckPair>, r: seq<CheckPair>, limit: nat, n: nat)
    requires Limited(l, r, limit) && n <= |l|
    ensures Alive(r[..n]) == Min(limit, Alive(l[..n]))
  {
    if n > 0 {
      LimitCount(l, r, limit, n - 1);
      assert l[..n][..n - 1] == l[..n - 1] && r[..n][..n - 1] == r[..n - 1];
    }
  }

  lemma {:induction false} AliveGrows(l: seq<CheckPair>, i: nat, j: nat)
    requires i <= j <= |l|
    ensures Alive(l[..i]) <= Alive(l[..j])
    decreases j
  {
    if i < j {
      AliveGrows(l, i, j - 1);
      assert l[..j][..j - 1] == l[..j - 1];
    }
  }

  // Nomination ---------------------------------------------------------------

  ghost predicate NominatedIn(p: CheckPair, component: nat) {
    p.component == component && IsValid(p) && p.nominated
  }

  /** The highest priority among the nominated valid pairs, or 0. */
  method HighestNominated(l: seq<CheckPair>, component: nat) returns (highest: nat)
    ensures forall i :: 0 <= i < |l| && NominatedIn(l[i], component) ==> l[i].priority <= highest
    ensures highest != 0 ==> exists i :: 0 <= i < |l| && NominatedIn(l[i], component) && l[i].priority == highest
  {
    highest := 0;
    for j := 0 to |l|
      invariant forall i :: 0 <= i < j && NominatedIn(l[i], component) ==> l[i].priority <= highest
      invariant highest != 0 ==> exists i :: 0 <= i < j && NominatedIn(l[i], component) && l[i].priority == highest
    {
      var p := l[j];
      if p.component == component && IsValid(p) && p.nominated && p.priority > highest {
        highest := p.priority;
      }
    }
  }

  /** What pruning does to one pair. */
  function Pruned(p: CheckPair, component: nat, highest: nat): CheckPair {
    if p.component != component then p
    else if p.state == Frozen || p.state == Waiting then p.(state := Cancelled)
    else if p.state == InProgress && highest != 0 && p.priority < highest then
        p.(state := Cancelled, message := NoMessage)
    else p
  }

  /** priv_prune_pending_checks: cancels what a nomination has made useless and
      counts the checks it keeps running. */
  method PrunePending(l: seq<CheckPair>, component: nat) returns (r: seq<CheckPair>, kept: nat, ghost highest: nat)
    ensures |r| == |l| && forall i :: 0 <= i < |l| ==> r[i] == Pruned(l[i], component, highest)
    ensures highest != 0 ==> exists i :: 0 <= i < |l| && NominatedIn(l[i], component) && l[i].priority == highest
    ensures forall i :: 0 <= i < |l| && NominatedIn(l[i], component) ==> l[i].priority <= highest
    ensures kept == 0 <==> forall i :: 0 <= i < |r| && r[i].component == component ==> r[i].state != InProgress
  {
    var h := HighestNominated(l, component);
    highest := h;
    r, kept := l, 0;
    for j := 0 to |l|
      invariant |r| == |l|
      invariant forall i :: 0 <= i < j ==> r[i] == Pruned(l[i], component, h)
      invariant forall i :: j <= i < |l| ==> r[i] == l[i]
      invariant kept == 0 <==> forall i :: 0 <= i < j && r[i].component == component ==> r[i].state != InProgress
    {
      ghost var before := r;
      var p := r[j];
      if p.component == component {
        if p.state == Frozen || p.state == Waiting {
          r := r[j := p.(state := Cancelled)];
        } else if p.state == InProgress {
          if h != 0 && p.priority < h {
            r := r[j := p.(message := NoMessage, state := Cancelled)];
          } else {
            kept := kept + 1;
          }
        }
      }
      assert forall i :: 0 <= i < j ==> r[i] == before[i];
    }
  }

  /** A nominated valid pair of the component has a greater priority than `p`. */
  ghost predicate Beaten(l: seq<CheckPair>, p: CheckPair, component: nat) {
    exists k :: 0 <= k < |l| && NominatedIn(l[k], component) && p.priority < l[k].priority
  }

  ghost predicate HasNominated(l: seq<CheckPair>, component: nat) {
    exists k :: 0 <= k < |l| && NominatedIn(l[k], component)
  }

  /** What a look at a component does: nothing without a nominated valid pair.  With one,
      its waiting and frozen pairs are cancelled, the running checks of those that are
      beaten too, and it is ready exactly if no check of it goes on. */
  ghost predicate Concluded(l: seq<CheckPair>, r: seq<CheckPair>, ready: bool, component: nat) {
    && |r| == |l|
    && (ready <==> HasNominated(l, component)
                   && forall i :: 0 <= i < |l| && l[i].component == component && l[i].state == InProgress ==>
                                    Beaten(l, l[i], component))
    && forall i :: 0 <= i < |l| ==>
         r[i] == if !HasNominated(l, component) || l[i].component != component then l[i]
                 else if l[i].state in {Frozen, Waiting} then l[i].(state := Cancelled)
                 else if l[i].state == InProgress && Beaten(l, l[i], component) then
                   l[i].(state := Cancelled, message := NoMessage)
                 else l[i]
  }

  /** A component that is ready has a nominated valid pair and nothing unfinished, also
      after a look at it, and such pairs stay as they are. */
  lemma ReadyIsDone(l: seq<CheckPair>, r: seq<CheckPair>, ready: bool, component: nat)
    requires Concluded(l, r, ready, component)
    ensures HasNominated(l, component) ==> HasNominated(r, component)
    ensures ready ==> HasNominated(r, component)
    ensures ready ==> forall i :: 0 <= i < |r| && r[i].component == component ==> !Unfinished(r[i])
  {
    if HasNominated(l, component) {
      var k :| 0 <= k < |l| && NominatedIn(l[k], component);
      assert r[k] == l[k];
    }
  }

  /** priv_update_check_list_state_for_ready.  READY is signalled only for a
      component that has a nominated valid pair and nothing left to check, and a
      running check is cancelled only if a nominated valid pair is strictly better.
      Without a nomination nothing changes. */
  method UpdateReady(l: seq<CheckPair>, component: nat) returns (r: seq<CheckPair>, ready: bool)
    ensures Concluded(l, r, ready, component)
  {
    r, ready := l, false;
    var nominated := CountNominatedIn(l, component);
    if nominated > 0 {
      var kept;
      ghost var highest;
      r, kept, highest := PrunePending(l, component);
      ready := kept == 0;
      forall i | 0 <= i < |l|
        ensures highest != 0 && l[i].priority < highest <==> Beaten(l, l[i], component)
      {
      }
    }
  }

  method CountNominatedIn(l: seq<CheckPair>, component: nat) returns (n: nat)
    ensures n > 0 <==> exists i :: 0 <= i < |l| && NominatedIn(l[i], component)
  {
    n := 0;
    for j := 0 to |l|
      invariant n > 0 <==> exists i :: 0 <= i < j && NominatedIn(l[i], component)
    {
      if l[j].component == component && IsValid(l[j]) && l[j].nominated {
        assert NominatedIn(l[j], component);
        n := n + 1;
      }
    }
  }

  /** Cancelling pairs changes neither order nor prices. */
  lemma SamePrices(l: seq<CheckPair>, r: seq<CheckPair>, controlling: bool)
    requires |r| == |l| && Ordered(l) && Priced(l, controlling)
    requires forall i :: 0 <= i < |l| ==> r[i] == l[i].(state := r[i].state, message := r[i].message)
    ensures Ordered(r) && Priced(r, controlling)
  {
    hide RolePriority;
    assert forall i :: 0 <= i < |l| ==>
        r[i].priority == l[i].priority && r[i].local == l[i].local && r[i].remote == l[i].remote;
  }

  lemma {:induction false} FewerAlive(l: seq<CheckPair>, r: seq<CheckPair>)
    requires |r| == |l| && forall i :: 0 <= i < |l| ==> r[i].state != Cancelled ==> l[i].state != Cancelled
    ensures Alive(r) <= Alive(l)
  {
    if l != [] {
      FewerAlive(l[..|l| - 1], r[..|r| - 1]);
    }
  }

  /** The check list of a stream, through additions, changes of role and
      nominations. */
  class ConnCheckList {
    var pairs: seq<CheckPair>
    var controlling: bool
    const maxConnChecks: nat

    ghost predicate Valid()
      reads this
    {
      Ordered(pairs) && Priced(pairs, controlling) && Alive(pairs) <= maxConnChecks
    }

    constructor (limit: nat, controllingMode: bool)
      ensures Valid() && pairs == [] && maxConnChecks == limit && controlling == controllingMode
    {
      pairs, controlling, maxConnChecks := [], controllingMode, limit;
    }

    /** priv_add_new_check_pair, as section 5.7.3 of RFC 5245 has it: the pair is
        placed by its priority, then the limit applies. */
    method AddPair(component: nat, local: u32, remote: u32, state: CheckState, useCandidate: bool)
      returns (ghost at: nat)
      requires Valid()
      modifies this`pairs
      ensures Valid() && at <= |old(pairs)|
      ensures var pair := CheckPair(component, local, remote, RolePriority(controlling, local, remote), state,
                                    useCandidate, NoMessage, 0);
              Limited(old(pairs)[..at] + [pair] + old(pairs)[at..], pairs, maxConnChecks)
    {
      hide RolePriority, Alive, Limited, Ordered;
      var pair := CheckPair(component, local, remote, RolePriority(controlling, local, remote), state, useCandidate,
                            NoMessage, 0);
      ghost var l := pairs;
      var inserted, place := InsertSorted(pairs, pair);
      at := place;
      InsertKeepsOrder(l, pair, at);
      assert Priced(inserted, controlling);
      pairs := LimitSize(inserted, maxConnChecks);
      LimitKeepsBest(inserted, pairs, maxConnChecks);
      LimitKeepsPrices(inserted, pairs, maxConnChecks, controlling);
    }

    /** priv_check_for_role_conflict: the priorities follow the role, the order
        stays. */
    method SwitchRole(control: bool)
      requires Valid()
      modifies this
      ensures Valid() && controlling == control && |pairs| == |old(pairs)|
      ensures forall i :: 0 <= i < |pairs| ==> pairs[i] == old(pairs)[i].(priority := pairs[i].priority)
      ensures control == old(controlling) ==> pairs == old(pairs)
    {
      hide RolePriority, Alive;
      if control != controlling {
        controlling := control;
        ghost var l := pairs;
        pairs := Recalculate(pairs, control);
        RoleSwitchKeepsOrder(l, pairs, control);
        FewerAlive(l, pairs);
      }
    }

    /** The list after a nomination in a component. */
    method Conclude(component: nat) returns (ready: bool)
      requires Valid()
      modifies this`pairs
      ensures Valid() && Concluded(old(pairs), pairs, ready, component)
    {
      hide RolePriority, Alive;
      ghost var l := pairs;
      pairs, ready := UpdateReady(pairs, component);
      SamePrices(l, pairs, controlling);
      FewerAlive(l, pairs);
    }
  }
}
