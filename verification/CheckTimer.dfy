/** The pacing timer of an agent that hears nothing from its peer. */
module CheckTimer {
  import opened Seq32
  import opened Candidates
  import opened CheckList

  datatype Stream = Stream(components: seq<nat>, pairs: seq<CheckPair>)

  const TIMER_TA := 20

  // A rank that falls --------------------------------------------------------

  /** How much is left to happen to a pair nobody answers; a valid pair can still
      be checked once more, as the nominated one. */
  function Phase(p: CheckPair): nat {
    match p.state
    case Frozen => 4
    case Waiting => 3
    case Succeeded => 2
    case Discovered => 2
    case InProgress => 1
    case Failed => 0
    case Cancelled => 0
  }

  /** The sum of the delays that are still to come, each twice the one before. */
  function Backoff(delay: nat, left: nat): nat
    decreases left
  {
    if left == 0 then 0 else 2 * delay + Backoff(2 * delay, left - 1)
  }

  /** When a check without answer fails at the latest. */
  function Horizon(t: StunTimer): int { t.deadline + Backoff(t.delay, t.left) }

  /** A bound on the ticks a running check lasts after a tick at time `t`. */
  function TicksLeft(p: CheckPair, t: int): nat {
    if p.message.NoMessage? then 1
    else Max(0, Max(p.nextTick, Horizon(p.message.timer)) - t) + p.message.timer.left + 1
  }

  /** What a tick at time `now`, the one before at `t`, does to one pair. */
  ghost predicate Moves(p: CheckPair, q: CheckPair, t: int, now: int) {
    && q.component == p.component && q.priority == p.priority
    && (Phase(q) < Phase(p) || (q.state == p.state && (p.state == InProgress ==> TicksLeft(q, now) < TicksLeft(p, t))))
  }

  ghost predicate AllMove(l: seq<CheckPair>, r: seq<CheckPair>, t: int, now: int) {
    |r| == |l| && forall i :: 0 <= i < |l| ==> Moves(l[i], r[i], t, now)
  }

  function Phases(l: seq<CheckPair>): nat {
    if l == [] then 0 else Phase(l[0]) + Phases(l[1..])
  }

  function Running(l: seq<CheckPair>, t: int): nat {
    if l == [] then 0 else (if l[0].state == InProgress then TicksLeft(l[0], t) else 0) + Running(l[1..], t)
  }

  /** A tick lowers the rank of a list, and strictly if a check still runs. */
  lemma {:induction false} ListFalls(l: seq<CheckPair>, r: seq<CheckPair>, t: int, now: int)
    requires AllMove(l, r, t, now)
    ensures Phases(r) <= Phases(l)
    ensures (exists i :: 0 <= i < |l| && Phase(r[i]) < Phase(l[i])) ==> Phases(r) < Phases(l)
    ensures Phases(r) == Phases(l) ==> Running(r, now) <= Running(l, t)
    ensures Phases(r) == Phases(l) && (exists i :: 0 <= i < |l| && r[i].state == InProgress) ==>
              Running(r, now) < Running(l, t)
  {
    if l != [] {
      assert Moves(l[0], r[0], t, now);
      assert forall i :: 0 <= i < |l| - 1 ==> l[1..][i] == l[i + 1] && r[1..][i] == r[i + 1];
      ListFalls(l[1..], r[1..], t, now);
      if i :| 0 <= i < |l| && Phase(r[i]) < Phase(l[i]) {
        if i > 0 {
          assert Phase(r[1..][i - 1]) < Phase(l[1..][i - 1]);
        }
      }
      if Phases(r) == Phases(l) {
        if i :| 0 <= i < |l| && r[i].state == InProgress {
          if i > 0 {
            assert r[1..][i - 1].state == InProgress;
          }
        }
      }
    }
  }

  function StreamPhases(ss: seq<Stream>): nat {
    if ss == [] then 0 else Phases(ss[0].pairs) + StreamPhases(ss[1..])
  }

  function StreamRunning(ss: seq<Stream>, t: int): nat {
    if ss == [] then 0 else Running(ss[0].pairs, t) + StreamRunning(ss[1..], t)
  }

  ghost predicate StreamsMove(ss: seq<Stream>, rs: seq<Stream>, t: int, now: int) {
    && |rs| == |ss|
    && forall s :: 0 <= s < |ss| ==> rs[s].components == ss[s].components && AllMove(ss[s].pairs, rs[s].pairs, t, now)
  }

  ghost predicate SomeFell(l: seq<CheckPair>, r: seq<CheckPair>) {
    |r| == |l| && exists i :: 0 <= i < |l| && Phase(r[i]) < Phase(l[i])
  }

  predicate StillRunning(l: seq<CheckPair>) {
    exists i :: 0 <= i < |l| && l[i].state == InProgress
  }

  lemma {:induction false} StreamsFall(ss: seq<Stream>, rs: seq<Stream>, t: int, now: int)
    requires StreamsMove(ss, rs, t, now)
    ensures StreamPhases(rs) <= StreamPhases(ss)
    ensures (exists s :: 0 <= s < |ss| && SomeFell(ss[s].pairs, rs[s].pairs)) ==> StreamPhases(rs) < StreamPhases(ss)
    ensures StreamPhases(rs) == StreamPhases(ss) ==> StreamRunning(rs, now) <= StreamRunning(ss, t)
    ensures StreamPhases(rs) == StreamPhases(ss) && (exists s :: 0 <= s < |ss| && StillRunning(rs[s].pairs)) ==>
              StreamRunning(rs, now) < StreamRunning(ss, t)
  {
    hide Phases, Running, Moves, Phase;
    if ss != [] {
      ListFalls(ss[0].pairs, rs[0].pairs, t, now);
      assert forall s :: 0 <= s < |ss| - 1 ==> ss[1..][s] == ss[s + 1] && rs[1..][s] == rs[s + 1];
      StreamsFall(ss[1..], rs[1..], t, now);
      if s :| 0 <= s < |ss| && SomeFell(ss[s].pairs, rs[s].pairs) {
        if s > 0 {
          assert SomeFell(ss[1..][s - 1].pairs, rs[1..][s - 1].pairs);
        }
      }
      if StreamPhases(rs) == StreamPhases(ss) {
        if s :| 0 <= s < |ss| && StillRunning(rs[s].pairs) {
          if s > 0 {
            assert StillRunning(rs[1..][s - 1].pairs);
          }
        }
      }
    }
  }

  // One check ----------------------------------------------------------------

  datatype TimerReturn = Timeout | Retransmit | Success

  /** stun_timer_remainder */
  function Remainder(timer: StunTimer, now: int): nat { Max(0, timer.deadline - now) }

  /** stun_timer_refresh */
  method Refresh(timer: StunTimer, now: int) returns (r: TimerReturn, next: StunTimer)
    ensures r == if timer.deadline > now then Success else if timer.left == 0 then Timeout else Retransmit
    ensures r != Retransmit ==> next == timer
    ensures r == Retransmit ==> next == StunTimer(timer.deadline + 2 * timer.delay, 2 * timer.delay, timer.left - 1)
    ensures Horizon(next) == Horizon(timer)
  {
    next := timer;
    if Remainder(timer, now) == 0 {
      if timer.left == 0 {
        return Timeout, next;
      }
      next := StunTimer(timer.deadline + timer.delay * 2, timer.delay * 2, timer.left - 1);
      return Retransmit, next;
    }
    return Success, next;
  }

  /** What a tick makes of a running check.  Without a message it has failed; before
      its moment nothing happens; once its timer has run out it is sent again, or fails
      if that was the last time; otherwise its moment is the timer's. */
  ghost predicate Checked(p: CheckPair, q: CheckPair, now: int) {
    match p.message
    case NoMessage => q == p.(state := Failed)
    case Pending(timer) =>
      if p.nextTick > now then q == p
      else if timer.deadline > now then q == p.(nextTick := timer.deadline)
      else if timer.left == 0 then q == p.(state := Failed, message := NoMessage)
      else
        var next := StunTimer(timer.deadline + 2 * timer.delay, 2 * timer.delay, timer.left - 1);
        q == p.(message := Pending(next), nextTick := Max(now, next.deadline))
  }

  /** A running check at a tick: it fails without a message or when its timer has
      run out, otherwise it goes on. */
  method TickPair(p: CheckPair, ghost t: int, now: int) returns (q: CheckPair)
    requires t < now && p.state == InProgress
    ensures Moves(p, q, t, now) && (q.state == InProgress || q.state == Failed)
    ensures Checked(p, q, now)
  {
    hide Backoff;
    q := p;
    if p.message.NoMessage? {
      q := p.(state := Failed);
    } else if p.nextTick <= now {
      var r, timer := Refresh(p.message.timer, now);
      BackoffPositive(timer);
      match r
      case Timeout =>
        q := p.(state := Failed, message := NoMessage);
      case Retransmit =>
        q := p.(message := Pending(timer), nextTick := now + Remainder(timer, now));
      case Success =>
        q := p.(message := Pending(timer), nextTick := now + Remainder(timer, now));
    }
  }

  lemma BackoffPositive(t: StunTimer)
    ensures t.deadline <= Horizon(t)
  {
  }

  /** Pair `p` with a check of it under way. */
  ghost predicate Started(p: CheckPair, q: CheckPair) {
    && q.state == InProgress && q.component == p.component
    && q.priority == p.priority && q.local == p.local && q.remote == p.remote
  }

  /** priv_conn_check_initiate and conn_check_send: whether the component is found,
      whether a message is made, and with which timer, is up to parts of the agent
      that are not modelled.  A controlling agent nominates every pair it checks. */
  method Initiate(p: CheckPair, controlling: bool, now: int) returns (q: CheckPair)
    ensures Started(p, q) && (p.nominated ==> q.nominated)
  {
    q := p.(nextTick := now + TIMER_TA, state := InProgress);
    var found: bool := *;
    if !found {
      return;
    }
    q := q.(nominated := q.nominated || controlling);
    var made: bool := *;
    if made {
      var delay: nat := *;
      var retransmissions: nat := *;
      q := q.(message := Pending(StunTimer(now + delay, delay, retransmissions)), nextTick := now + delay);
    } else {
      q := q.(message := NoMessage);
    }
  }

  // The agent ----------------------------------------------------------------

  /** priv_conn_check_find_next_waiting */
  method FindNextWaiting(l: seq<CheckPair>) returns (i: nat)
    ensures i <= |l| && forall j :: 0 <= j < i ==> l[j].state != Waiting
    ensures i < |l| ==> l[i].state == Waiting
    ensures i < |l| && Ordered(l) ==> forall j :: 0 <= j < |l| && l[j].state == Waiting ==>
              l[j].priority / 2 <= l[i].priority / 2
    ensures i < |l| && FullyOrdered(l) ==> forall j :: 0 <= j < |l| && l[j].state == Waiting ==>
              l[j].priority <= l[i].priority
  {
    i := 0;
    while i < |l| && l[i].state != Waiting
      invariant i <= |l| && forall j :: 0 <= j < i ==> l[j].state != Waiting
    {
      i := i + 1;
    }
  }

  /** The frozen pair of highest priority; one of priority 0 does not count. */
  method FindFrozen(l: seq<CheckPair>) returns (found: bool, i: nat)
    ensures found ==> i < |l| && l[i].state == Frozen && l[i].priority > 0
    ensures found ==> forall j :: 0 <= j < |l| && l[j].state == Frozen ==> l[j].priority <= l[i].priority
    ensures !found ==> forall j :: 0 <= j < |l| && l[j].state == Frozen ==> l[j].priority == 0
  {
    found, i := false, 0;
    var highest := 0;
    for j := 0 to |l|
      invariant found ==> i < j && l[i].state == Frozen && l[i].priority == highest > 0
      invariant !found ==> highest == 0
      invariant forall k :: 0 <= k < j && l[k].state == Frozen ==> l[k].priority <= highest
    {
      if l[j].state == Frozen && l[j].priority > highest {
        found, i, highest := true, j, l[j].priority;
      }
    }
  }

  /** Valid pairs that are nominated, and that are not. */
  function Nominated(l: seq<CheckPair>): nat {
    if l == [] then 0 else Nominated(l[..|l| - 1]) + (if IsValid(l[|l| - 1]) && l[|l| - 1].nominated then 1 else 0)
  }

  predicate AwaitsNomination(l: seq<CheckPair>) {
    exists i :: 0 <= i < |l| && IsValid(l[i]) && !l[i].nominated
  }

  /** A component has a valid pair that is not nominated, and there are fewer
      nominated pairs than components. */
  predicate LacksNomination(s: Stream) {
    Nominated(s.pairs) < |s.components| && AwaitsNomination(s.pairs)
  }

  /** A list that keeps the timer going: a check runs, or a nomination is lacking. */
  predicate KeepsGoing(s: Stream) { StillRunning(s.pairs) || LacksNomination(s) }

  /** No valid pair changes, and none becomes valid. */
  ghost predicate KeepsValid(l: seq<CheckPair>, r: seq<CheckPair>) {
    |r| == |l| && forall i :: 0 <= i < |l| ==> r[i] == l[i] || !(IsValid(l[i]) || IsValid(r[i]))
  }

  ghost predicate AllKeepValid(ss: seq<Stream>, rs: seq<Stream>) {
    && |rs| == |ss|
    && forall k :: 0 <= k < |ss| ==> rs[k].components == ss[k].components && KeepsValid(ss[k].pairs, rs[k].pairs)
  }

  lemma AllKeepValidTwice(ss: seq<Stream>, ms: seq<Stream>, rs: seq<Stream>)
    requires AllKeepValid(ss, ms) && AllKeepValid(ms, rs)
    ensures AllKeepValid(ss, rs)
  {
    forall k | 0 <= k < |ss| ensures KeepsValid(ss[k].pairs, rs[k].pairs) {
      assert KeepsValid(ss[k].pairs, ms[k].pairs) && KeepsValid(ms[k].pairs, rs[k].pairs);
    }
  }

  lemma {:induction false} SameNominated(l: seq<CheckPair>, r: seq<CheckPair>)
    requires KeepsValid(l, r)
    ensures Nominated(r) == Nominated(l) && (AwaitsNomination(r) <==> AwaitsNomination(l))
  {
    if l != [] {
      SameNominated(l[..|l| - 1], r[..|r| - 1]);
    }
    if i :| 0 <= i < |l| && IsValid(l[i]) && !l[i].nominated {
      assert IsValid(r[i]) && !r[i].nominated;
    }
    if i :| 0 <= i < |r| && IsValid(r[i]) && !r[i].nominated {
      assert IsValid(l[i]) && !l[i].nominated;
    }
  }

  /** A nomination that is lacking stays so. */
  lemma StillLacks(ss: seq<Stream>, rs: seq<Stream>)
    requires AllKeepValid(ss, rs)
    ensures (exists k :: 0 <= k < |rs| && LacksNomination(rs[k])) <==>
              (exists k :: 0 <= k < |ss| && LacksNomination(ss[k]))
  {
    hide Nominated, AwaitsNomination;
    forall k | 0 <= k < |ss| ensures LacksNomination(rs[k]) <==> LacksNomination(ss[k]) {
      SameNominated(ss[k].pairs, rs[k].pairs);
    }
    if k :| 0 <= k < |ss| && LacksNomination(ss[k]) {
      assert LacksNomination(rs[k]);
    }
  }

  /** The first loop of priv_conn_check_tick_stream. */
  method TickChecks(l: seq<CheckPair>, ghost t: int, now: int)
    returns (r: seq<CheckPair>, inProgress: nat, nominated: nat, unnominated: nat)
    requires t < now
    ensures AllMove(l, r, t, now)
    ensures inProgress > 0 <==> StillRunning(r)
    ensures nominated == Nominated(r) && (unnominated > 0 <==> AwaitsNomination(r))
    ensures forall i :: 0 <= i < |l| ==> if l[i].state == InProgress then r[i].state in {InProgress, Failed}
              else r[i] == l[i]
    ensures forall i :: 0 <= i < |l| && l[i].state == InProgress ==> Checked(l[i], r[i], now)
  {
    hide Moves, StillRunning, AwaitsNomination, Checked;
    NothingYet();
    r, inProgress, nominated, unnominated := [], 0, 0, 0;
    for j := 0 to |l|
      invariant |r| == j && forall i :: 0 <= i < j ==> Moves(l[i], r[i], t, now)
      invariant inProgress > 0 <==> StillRunning(r)
      invariant nominated == Nominated(r) && (unnominated > 0 <==> AwaitsNomination(r))
      invariant forall i :: 0 <= i < j ==> if l[i].state == InProgress then r[i].state in {InProgress, Failed}
                else r[i] == l[i]
      invariant forall i :: 0 <= i < j && l[i].state == InProgress ==> Checked(l[i], r[i], now)
    {
      var p := l[j];
      MovesNot(p, t, now);
      if p.state == InProgress {
        p := TickPair(p, t, now);
      }
      OneMore(r, p);
      r := r + [p];
      if p.state == InProgress {
        inProgress := inProgress + 1;
      }
      if IsValid(p) && p.nominated {
        nominated := nominated + 1;
      } else if IsValid(p) {
        unnominated := unnominated + 1;
      }
    }
  }

  lemma NothingYet()
    ensures !StillRunning([]) && !AwaitsNomination([])
  {
  }

  /** The counts of a list with one pair more. */
  lemma OneMore(l: seq<CheckPair>, p: CheckPair)
    ensures StillRunning(l + [p]) <==> StillRunning(l) || p.state == InProgress
    ensures AwaitsNomination(l + [p]) <==> AwaitsNomination(l) || (IsValid(p) && !p.nominated)
    ensures Nominated(l + [p]) == Nominated(l) + if IsValid(p) && p.nominated then 1 else 0
  {
    var r := l + [p];
    assert r[..|r| - 1] == l && r[|l|] == p && forall i :: 0 <= i < |l| ==> r[i] == l[i];
  }

  lemma MovesNot(p: CheckPair, t: int, now: int)
    ensures p.state != InProgress ==> Moves(p, p, t, now)
  {
  }

  /** Any number of valid pairs made to run again. */
  ghost predicate Renominated(l: seq<CheckPair>, r: seq<CheckPair>) {
    && |r| == |l|
    && forall i :: 0 <= i < |l| ==>
         r[i] == l[i] || (IsValid(l[i]) && r[i].state == InProgress && r[i].nominated
                          && r[i].component == l[i].component && r[i].priority == l[i].priority)
  }

  /** Pair `i` is the first valid one of its component: the best one on an ordered
      list. */
  predicate FirstValid(l: seq<CheckPair>, i: nat)
    requires i < |l|
  {
    IsValid(l[i]) && forall j :: 0 <= j < i && IsValid(l[j]) ==> l[j].component != l[i].component
  }

  /** The first valid pair of a component is checked again, as the nominated one. */
  method NominateFirst(l: seq<CheckPair>, component: nat, now: int) returns (r: seq<CheckPair>, ghost k: nat)
    ensures Renominated(l, r)
    ensures k < |l| ==>
              && FirstValid(l, k) && l[k].component == component
              && Started(l[k], r[k]) && r[k].nominated && r == l[k := r[k]]
    ensures k >= |l| ==> r == l && forall i :: 0 <= i < |l| ==> !(IsValid(l[i]) && l[i].component == component)
  {
    r, k := l, |l|;
    for j := 0 to |l|
      invariant r == l && k == |l| && forall i :: 0 <= i < j ==> !(IsValid(l[i]) && l[i].component == component)
    {
      if l[j].component == component && IsValid(l[j]) {
        var q := Initiate(l[j].(nominated := true), true, now);
        return l[j := q], j;
      }
    }
  }

  ghost predicate Distinct(c: seq<nat>) { forall i, j :: 0 <= i < j < |c| ==> c[i] != c[j] }

  /** The first valid pair of each of the components runs again as the nominated one;
      the others stay. */
  ghost predicate Nominates(components: seq<nat>, l: seq<CheckPair>, r: seq<CheckPair>) {
    && |r| == |l|
    && forall i :: 0 <= i < |l| ==>
         if FirstValid(l, i) && l[i].component in components then Started(l[i], r[i]) && r[i].nominated
             else r[i] == l[i]
  }

  lemma NominatesOneMore(components: seq<nat>, c: nat, l: seq<CheckPair>, m: seq<CheckPair>, r: seq<CheckPair>, k: nat)
    requires Nominates(components, l, m) && c !in components
    requires |r| == |m|
    requires if k < |m| then
               && FirstValid(m, k) && m[k].component == c
               && Started(m[k], r[k]) && r[k].nominated && r == m[k := r[k]]
             else r == m && forall i :: 0 <= i < |m| ==> !(IsValid(m[i]) && m[i].component == c)
    ensures Nominates(components + [c], l, r)
  {
    assert forall i :: 0 <= i < |l| && l[i].component == c ==> m[i] == l[i];
    assert forall i :: 0 <= i < |l| ==> m[i].component == l[i].component;
    forall i | 0 <= i < |l|
      ensures if FirstValid(l, i) && l[i].component in components + [c] then Started(l[i], r[i]) && r[i].nominated
              else r[i] == l[i]
    {
      if l[i].component == c && FirstValid(l, i) {
        assert FirstValid(m, i);
        assert k == i;
      }
    }
  }

  method NominateEach(components: seq<nat>, l: seq<CheckPair>, now: int) returns (r: seq<CheckPair>)
    ensures Renominated(l, r)
    ensures (exists i :: 0 <= i < |l| && IsValid(l[i]) && l[i].component in components) ==> SomeFell(l, r)
    ensures Distinct(components) ==> Nominates(components, l, r)
  {
    hide Nominates, FirstValid;
    r := l;
    NominatesNone(l);
    for c := 0 to |components|
      invariant Renominated(l, r)
      invariant SomeFell(l, r) || (r == l && forall i :: 0 <= i < |l| && IsValid(l[i]) ==>
                l[i].component !in components[..c])
      invariant Distinct(components) ==> Nominates(components[..c], l, r)
    {
      ghost var before := r;
      ghost var k;
      r, k := NominateFirst(r, components[c], now);
      RenominatedTwice(l, before, r);
      assert components[..c + 1] == components[..c] + [components[c]];
      if before == l && exists i :: 0 <= i < |l| && IsValid(l[i]) && l[i].component == components[c] {
        assert Renominated(l, r) && k < |l|;
        assert Phase(r[k]) < Phase(l[k]) by { assert IsValid(l[k]) by { FirstIsValid(l, k); } }
      }
      if Distinct(components) {
        NominatesOneMore(components[..c], components[c], l, before, r, k);
      }
    }
    assert components[..|components|] == components;
  }

  lemma NominatesNone(l: seq<CheckPair>)
    ensures Nominates([], l, l)
  {
  }

  lemma FirstIsValid(l: seq<CheckPair>, i: nat)
    requires i < |l| && FirstValid(l, i)
    ensures IsValid(l[i])
  {
  }

  lemma RenominatedTwice(l: seq<CheckPair>, m: seq<CheckPair>, r: seq<CheckPair>)
    requires Renominated(l, m) && Renominated(m, r)
    ensures Renominated(l, r)
    ensures SomeFell(l, m) ==> SomeFell(l, r)
    ensures forall i :: 0 <= i < |l| && IsValid(m[i]) && !IsValid(r[i]) ==> Phase(r[i]) < Phase(l[i])
  {
    if SomeFell(l, m) {
      var i :| 0 <= i < |l| && Phase(m[i]) < Phase(l[i]);
      assert Phase(r[i]) < Phase(l[i]);
    }
  }

  ghost predicate Covered(s: Stream) {
    forall i :: 0 <= i < |s.pairs| ==> s.pairs[i].component in s.components
  }

  /** What a tick makes of pair `i` of stream `s`, without starting a check: a running
      check goes on or fails; if a controlling agent lacks a nomination, the first
      valid pair of every component runs again as the nominated one; everything else
      stays. */
  ghost predicate Outcome(s: Stream, i: nat, q: CheckPair, controlling: bool, now: int)
    requires i < |s.pairs|
  {
    var p := s.pairs[i];
    if p.state == InProgress then Checked(p, q, now)
    else if !IsValid(p) || !controlling || !LacksNomination(s) then q == p
    else
      Distinct(s.components) && p.component in s.components ==>
        if FirstValid(s.pairs, i) then Started(p, q) && q.nominated else q == p
  }

  ghost predicate Outcomes(s: Stream, r: Stream, controlling: bool, now: int) {
    |r.pairs| == |s.pairs| && forall i :: 0 <= i < |s.pairs| ==> Outcome(s, i, r.pairs[i], controlling, now)
  }

  /** The valid pairs are the same after the first loop of a tick as before it. */
  lemma SameFirst(l: seq<CheckPair>, m: seq<CheckPair>, i: nat)
    requires KeepsValid(l, m) && i < |l|
    ensures FirstValid(l, i) <==> FirstValid(m, i)
  {
    forall j | 0 <= j < |l| ensures IsValid(l[j]) <==> IsValid(m[j]) {
      assert m[j] == l[j] || !(IsValid(l[j]) || IsValid(m[j]));
    }
  }

  lemma CheckedOutcomes(s: Stream, m: Stream, r: Stream, controlling: bool, now: int)
    requires m.components == s.components && KeepsValid(s.pairs, m.pairs)
    requires forall i :: 0 <= i < |s.pairs| ==>
               if s.pairs[i].state == InProgress then
                 m.pairs[i].state in {InProgress, Failed} && Checked(s.pairs[i], m.pairs[i], now)
               else m.pairs[i] == s.pairs[i]
    requires if controlling && LacksNomination(m) then
               Distinct(s.components) ==> Nominates(s.components, m.pairs, r.pairs)
             else r.pairs == m.pairs
    requires |r.pairs| == |s.pairs| && Renominated(m.pairs, r.pairs)
    ensures Outcomes(s, r, controlling, now)
  {
    hide Nominated, AwaitsNomination, Checked, Started;
    SameNominated(s.pairs, m.pairs);
    forall i | 0 <= i < |s.pairs| ensures Outcome(s, i, r.pairs[i], controlling, now) {
      SameFirst(s.pairs, m.pairs, i);
    }
  }

  /** Pair `i` of stream `s` is the first that waits, in the first stream in which one
      does. */
  ghost predicate FirstWaiting(ss: seq<Stream>, s: nat, i: nat) {
    && s < |ss| && i < |ss[s].pairs| && ss[s].pairs[i].state == Waiting
    && (forall n :: 0 <= n < i ==> ss[s].pairs[n].state != Waiting)
    && (forall k, n :: 0 <= k < s && 0 <= n < |ss[k].pairs| ==> ss[k].pairs[n].state != Waiting)
  }

  ghost predicate NoneWaits(ss: seq<Stream>) {
    forall k, n :: 0 <= k < |ss| && 0 <= n < |ss[k].pairs| ==> ss[k].pairs[n].state != Waiting
  }

  /** Pair `i` of stream `s` is a frozen one of greatest priority, in the first stream
      that has a frozen one of a priority above 0. */
  ghost predicate BestFrozen(ss: seq<Stream>, s: nat, i: nat) {
    && s < |ss| && i < |ss[s].pairs| && ss[s].pairs[i].state == Frozen && ss[s].pairs[i].priority > 0
    && (forall n :: 0 <= n < |ss[s].pairs| && ss[s].pairs[n].state == Frozen ==>
          ss[s].pairs[n].priority <= ss[s].pairs[i].priority)
    && (forall k, n :: 0 <= k < s && 0 <= n < |ss[k].pairs| && ss[k].pairs[n].state == Frozen ==>
          ss[k].pairs[n].priority == 0)
  }

  ghost predicate NoneFrozen(ss: seq<Stream>) {
    forall k, n :: 0 <= k < |ss| && 0 <= n < |ss[k].pairs| && ss[k].pairs[n].state == Frozen ==>
        ss[k].pairs[n].priority == 0
  }

  /** On a fully ordered list no waiting pair is better than the first. */
  lemma FirstIsBest(ss: seq<Stream>, s: nat, i: nat)
    requires FirstWaiting(ss, s, i) && FullyOrdered(ss[s].pairs)
    ensures forall n :: 0 <= n < |ss[s].pairs| && ss[s].pairs[n].state == Waiting ==>
              ss[s].pairs[n].priority <= ss[s].pairs[i].priority
  {
  }

  /** What is left of a started check after the rest of the tick. */
  lemma OutcomeLater(ss: seq<Stream>, ms: seq<Stream>, s: nat, i: nat, k: nat, n: nat, q: CheckPair, controlling: bool,
                     now: int)
    requires OneFell(ss, ms, s, i) && AllKeepValid(ss, ms) && k < |ss| && n < |ss[k].pairs| && (k, n) != (s, i)
    requires |ms[k].pairs| == |ss[k].pairs| && Outcome(ms[k], n, q, controlling, now)
    ensures Outcome(ss[k], n, q, controlling, now)
  {
    hide Nominated, AwaitsNomination, Checked, Started, KeepsValid;
    SameNominated(ss[k].pairs, ms[k].pairs);
    SameFirst(ss[k].pairs, ms[k].pairs, n);
    assert ms[k].pairs[n] == ss[k].pairs[n];
  }

  /** What a tick makes of all pairs.  The first waiting pair is started, and may have
      failed already; if none waits the best frozen pair is made to wait; every other
      pair has its outcome. */
  ghost predicate Paces(ss: seq<Stream>, rs: seq<Stream>, s: nat, i: nat, controlling: bool, now: int) {
    && |rs| == |ss| && (forall k :: 0 <= k < |ss| ==> |rs[k].pairs| == |ss[k].pairs|)
    && (!NoneWaits(ss) ==> FirstWaiting(ss, s, i) && rs[s].pairs[i].state in {InProgress, Failed})
    && (NoneWaits(ss) && !NoneFrozen(ss) ==>
          BestFrozen(ss, s, i) && rs[s].pairs[i] == ss[s].pairs[i].(state := Waiting))
    && forall k, n :: 0 <= k < |ss| && 0 <= n < |ss[k].pairs| ==>
         || ((k, n) == (s, i) && !(NoneWaits(ss) && NoneFrozen(ss)))
         || Outcome(ss[k], n, rs[k].pairs[n], controlling, now)
  }

  lemma PacedOutcomes(ss: seq<Stream>, ms: seq<Stream>, rs: seq<Stream>, s: nat, i: nat, controlling: bool, now: int)
    requires OneFell(ss, ms, s, i) && AllKeepValid(ss, ms) && |rs| == |ms| && !IsValid(ms[s].pairs[i])
    requires !NoneWaits(ss) ==> FirstWaiting(ss, s, i) && Started(ss[s].pairs[i], ms[s].pairs[i])
    requires NoneWaits(ss) ==>
               !NoneFrozen(ss) && BestFrozen(ss, s, i) && ms[s].pairs[i] == ss[s].pairs[i].(state := Waiting)
    requires forall k :: 0 <= k < |rs| ==> Outcomes(ms[k], rs[k], controlling, now)
    ensures Paces(ss, rs, s, i, controlling, now)
  {
    hide NoneWaits, NoneFrozen, FirstWaiting, BestFrozen;
    assert Outcomes(ms[s], rs[s], controlling, now);
    assert Outcome(ms[s], i, rs[s].pairs[i], controlling, now);
    forall k, n | 0 <= k < |ss| && 0 <= n < |ss[k].pairs| && (k, n) != (s, i)
      ensures n < |rs[k].pairs| && Outcome(ss[k], n, rs[k].pairs[n], controlling, now)
    {
      assert Outcomes(ms[k], rs[k], controlling, now) && KeepsValid(ss[k].pairs, ms[k].pairs);
      OutcomeLater(ss, ms, s, i, k, n, rs[k].pairs[n], controlling, now);
    }
    forall k | 0 <= k < |ss| ensures |rs[k].pairs| == |ss[k].pairs| {
      assert Outcomes(ms[k], rs[k], controlling, now);
    }
  }

  lemma UnpacedOutcomes(ss: seq<Stream>, rs: seq<Stream>, s: nat, i: nat, controlling: bool, now: int)
    requires |rs| == |ss| && NoneWaits(ss) && NoneFrozen(ss)
    requires forall k :: 0 <= k < |rs| ==> Outcomes(ss[k], rs[k], controlling, now)
    ensures Paces(ss, rs, s, i, controlling, now)
  {
    hide NoneWaits, NoneFrozen, FirstWaiting, BestFrozen, Outcome;
    forall k | 0 <= k < |ss| ensures |rs[k].pairs| == |ss[k].pairs| {
      assert Outcomes(ss[k], rs[k], controlling, now);
    }
  }

  /** priv_conn_check_tick_stream.  `mid` is the stream once its running checks
      have been looked at; what it then is decides whether the timer goes on. */
  method TickStream(s: Stream, controlling: bool, ghost t: int, now: int)
    returns (r: Stream, keep: bool, ghost mid: Stream)
    requires t < now
    ensures r.components == s.components && AllMove(s.pairs, r.pairs, t, now)
    ensures mid.components == s.components && (keep <==> KeepsGoing(mid))
    ensures |mid.pairs| == |s.pairs| && forall i :: 0 <= i < |s.pairs| ==>
              s.pairs[i].state == InProgress || mid.pairs[i] == s.pairs[i]
    ensures !keep || !controlling ==> r == mid
    ensures KeepsValid(s.pairs, mid.pairs)
    ensures keep && controlling && Covered(s) ==> StillRunning(r.pairs) || SomeFell(s.pairs, r.pairs)
    ensures Outcomes(s, r, controlling, now)
  {
    hide Nominated, Outcome, Nominates, FirstValid, Checked;
    var l, inProgress, nominated, unnominated := TickChecks(s.pairs, t, now);
    r := Stream(s.components, l);
    mid := r;
    keep := inProgress > 0;
    if nominated < |s.components| && unnominated > 0 {
      keep := true;
      if controlling {
        var n := NominateEach(s.components, l, now);
        NominatedMoves(s.pairs, l, n, t, now);
        CoveredStays(s, l, t, now);
        r := Stream(s.components, n);
      }
    }
    CheckedOutcomes(s, mid, r, controlling, now);
  }

  lemma NominatedMoves(l: seq<CheckPair>, m: seq<CheckPair>, r: seq<CheckPair>, t: int, now: int)
    requires AllMove(l, m, t, now) && Renominated(m, r)
    ensures AllMove(l, r, t, now)
    ensures SomeFell(m, r) ==> SomeFell(l, r)
  {
    forall i | 0 <= i < |l| ensures Moves(l[i], r[i], t, now) {
      assert Moves(l[i], m[i], t, now);
    }
    if SomeFell(m, r) {
      var i :| 0 <= i < |m| && Phase(r[i]) < Phase(m[i]);
      assert Moves(l[i], m[i], t, now);
      assert Phase(r[i]) < Phase(l[i]);
    }
  }

  lemma CoveredStays(s: Stream, m: seq<CheckPair>, t: int, now: int)
    requires AllMove(s.pairs, m, t, now)
    ensures Covered(s) ==> forall i :: 0 <= i < |m| ==> m[i].component in s.components
  {
    forall i | Covered(s) && 0 <= i < |m| ensures m[i].component in s.components {
      assert Moves(s.pairs[i], m[i], t, now);
    }
  }

  /** One pair in one stream replaced by one further on; nothing else changes. */
  ghost predicate OneFell(ss: seq<Stream>, ms: seq<Stream>, s: nat, i: nat) {
    && s < |ss| && i < |ss[s].pairs| && |ms| == |ss|
    && ms[s].components == ss[s].components && |ms[s].pairs| == |ss[s].pairs|
    && ms == ss[s := ms[s]] && ms[s].pairs == ss[s].pairs[i := ms[s].pairs[i]]
    && Phase(ms[s].pairs[i]) < Phase(ss[s].pairs[i])
    && ms[s].pairs[i].component == ss[s].pairs[i].component && ms[s].pairs[i].priority == ss[s].pairs[i].priority
  }

  /** A pair moved on, and then the tick. */
  lemma FallThenTick(ss: seq<Stream>, ms: seq<Stream>, rs: seq<Stream>, s: nat, i: nat, t: int, now: int)
    requires OneFell(ss, ms, s, i) && StreamsMove(ms, rs, t, now)
    ensures StreamsMove(ss, rs, t, now) && SomeFell(ss[s].pairs, rs[s].pairs)
  {
    forall k | 0 <= k < |ss| ensures rs[k].components == ss[k].components && AllMove(ss[k].pairs, rs[k].pairs, t, now) {
      assert AllMove(ms[k].pairs, rs[k].pairs, t, now);
      forall n | 0 <= n < |ss[k].pairs| ensures Moves(ss[k].pairs[n], rs[k].pairs[n], t, now) {
        assert Moves(ms[k].pairs[n], rs[k].pairs[n], t, now);
      }
    }
    assert Moves(ms[s].pairs[i], rs[s].pairs[i], t, now);
  }

  lemma OneKeepsValid(ss: seq<Stream>, ms: seq<Stream>, s: nat, i: nat)
    requires OneFell(ss, ms, s, i) && !IsValid(ss[s].pairs[i]) && !IsValid(ms[s].pairs[i])
    ensures AllKeepValid(ss, ms)
  {
  }

  class ConnCheckAgent {
    var streams: seq<Stream>
    var controlling: bool

    constructor (ss: seq<Stream>, controllingMode: bool)
      ensures streams == ss && controlling == controllingMode
    {
      streams, controlling := ss, controllingMode;
    }

    /** The first part of a tick: a waiting check is started, or else a frozen pair
        made to wait. */
    method Pace(now: int) returns (paced: bool, ghost s: nat, ghost i: nat)
      modifies this`streams
      ensures paced ==>
                OneFell(old(streams), streams, s, i) && !AtRest(old(streams)[s].pairs[i])
                && !IsValid(streams[s].pairs[i])
      ensures !NoneWaits(old(streams)) ==>
                paced && FirstWaiting(old(streams), s, i) && Started(old(streams)[s].pairs[i], streams[s].pairs[i])
      ensures NoneWaits(old(streams)) && !NoneFrozen(old(streams)) ==>
                && paced && BestFrozen(old(streams), s, i)
                && streams[s].pairs[i] == old(streams)[s].pairs[i].(state := Waiting)
      ensures paced ==> !NoneWaits(old(streams)) || !NoneFrozen(old(streams))
      ensures !paced ==> streams == old(streams)
      ensures !paced ==> forall k, n :: 0 <= k < |streams| && 0 <= n < |streams[k].pairs| ==>
                streams[k].pairs[n].state != Waiting
                    && (streams[k].pairs[n].state == Frozen ==> streams[k].pairs[n].priority == 0)
    {
      s, i := 0, 0;
      for k := 0 to |streams|
        invariant streams == old(streams)
        invariant forall m, n :: 0 <= m < k && 0 <= n < |streams[m].pairs| ==> streams[m].pairs[n].state != Waiting
      {
        var n := FindNextWaiting(streams[k].pairs);
        if n < |streams[k].pairs| {
          var p := Initiate(streams[k].pairs[n], controlling, now);
          s, i := k, n;
          streams := streams[k := streams[k].(pairs := streams[k].pairs[n := p])];
          return true, s, i;
        }
      }
      paced, s, i := UnfreezeNext();
    }

    /** priv_conn_check_unfreeze_next */
    method UnfreezeNext() returns (unfrozen: bool, ghost s: nat, ghost i: nat)
      modifies this`streams
      ensures unfrozen ==>
                OneFell(old(streams), streams, s, i) && BestFrozen(old(streams), s, i)
                && streams[s].pairs[i] == old(streams)[s].pairs[i].(state := Waiting)
      ensures !unfrozen ==> streams == old(streams) && NoneFrozen(streams)
    {
      s, i := 0, 0;
      for k := 0 to |streams|
        invariant streams == old(streams)
        invariant forall m, n :: 0 <= m < k && 0 <= n < |streams[m].pairs| && streams[m].pairs[n].state == Frozen ==>
                    streams[m].pairs[n].priority == 0
      {
        var found, n := FindFrozen(streams[k].pairs);
        if found {
          s, i := k, n;
          streams := streams[k := streams[k].(pairs := streams[k].pairs[n := streams[k].pairs[n].(state := Waiting)])];
          return true, s, i;
        }
      }
      unfrozen := false;
    }

    /** priv_conn_check_tick_unlocked, up to stopping the timer.  A tick that keeps
        the timer lowers the rank, or there was nothing to do to any pair before
        it, and then the agent is a controlled one: if a valid pair of its waits
        for a nomination it neither changes anything nor stops.  Pair `i` of stream
        `s` is the one whose check is started or that is unfrozen. */
    method Tick(ghost t: int, now: int) returns (keep: bool, ghost s: nat, ghost i: nat)
      requires t < now && forall k :: 0 <= k < |streams| ==> Covered(streams[k])
      modifies this`streams
      ensures forall k :: 0 <= k < |streams| ==> Covered(streams[k])
      ensures StreamsMove(old(streams), streams, t, now)
      ensures keep ==> Falls(old(streams), t, streams, now) || (!controlling && AllAtRest(old(streams)))
      ensures !keep ==> AllAtRest(streams) && forall k :: 0 <= k < |streams| ==> !KeepsGoing(streams[k])
      ensures !controlling && AllAtRest(old(streams)) ==>
                streams == old(streams) && (keep <==> exists k :: 0 <= k < |streams| && KeepsGoing(streams[k]))
      ensures !controlling ==> AllKeepValid(old(streams), streams)
      ensures Paces(old(streams), streams, s, i, controlling, now)
    {
      hide Nominated, AwaitsNomination, KeepsValid, Outcomes, Paces, FirstWaiting, BestFrozen, NoneWaits, NoneFrozen;
      ghost var ss := streams;
      var paced;
      paced, s, i := Pace(now);
      ghost var ms := streams;
      assert forall k :: 0 <= k < |ms| ==> Covered(ms[k]);
      var busy := TickStreams(t, now);
      keep := paced || busy;
      if paced {
        FallThenTick(ss, ms, streams, s, i, t, now);
        OneKeepsValid(ss, ms, s, i);
        PacedOutcomes(ss, ms, streams, s, i, controlling, now);
      } else {
        UnpacedOutcomes(ss, streams, s, i, controlling, now);
      }
      if !controlling {
        KeepsAllValid(ss);
        AllKeepValidTwice(ss, ms, streams);
      }
      StreamsCovered(ss, streams, t, now);
      StreamsFall(ss, streams, t, now);
      if keep && !controlling && !AllAtRest(ss) && !paced {
        ghost var k, n :| 0 <= k < |ss| && 0 <= n < |ss[k].pairs| && !AtRest(ss[k].pairs[n]);
        WasRunning(ss, streams, k, n, t, now);
      }
    }

    method TickStreams(ghost t: int, now: int) returns (busy: bool)
      requires t < now && forall k :: 0 <= k < |streams| ==> Covered(streams[k])
      modifies this`streams
      ensures StreamsMove(old(streams), streams, t, now)
      ensures busy && controlling ==>
                exists k :: 0 <= k < |streams| &&
                  (StillRunning(streams[k].pairs) || SomeFell(old(streams)[k].pairs, streams[k].pairs))
      ensures !busy ==> forall k, n :: 0 <= k < |streams| && 0 <= n < |streams[k].pairs| ==>
                streams[k].pairs[n].state != InProgress
                    && (old(streams)[k].pairs[n].state == InProgress || streams[k].pairs[n] == old(streams)[k].pairs[n])
      ensures !busy ==> forall k :: 0 <= k < |streams| ==> !KeepsGoing(streams[k])
      ensures !controlling && AllAtRest(old(streams)) ==>
                streams == old(streams) && (busy <==> exists k :: 0 <= k < |streams| && KeepsGoing(streams[k]))
      ensures !controlling ==> AllKeepValid(old(streams), streams)
      ensures forall k :: 0 <= k < |streams| ==> Outcomes(old(streams)[k], streams[k], controlling, now)
    {
      hide AllMove, KeepsGoing, KeepsValid, Outcomes;
      busy := false;
      for k := 0 to |streams|
        invariant |streams| == |old(streams)| && forall m :: k <= m < |streams| ==> streams[m] == old(streams)[m]
        invariant forall m :: 0 <= m < k ==>
                  streams[m].components == old(streams)[m].components
                  && AllMove(old(streams)[m].pairs, streams[m].pairs, t, now)
        invariant forall m :: 0 <= m < k ==> Outcomes(old(streams)[m], streams[m], controlling, now)
        invariant !controlling ==> forall m :: 0 <= m < k ==> KeepsValid(old(streams)[m].pairs, streams[m].pairs)
        invariant busy && controlling ==>
                    exists m :: 0 <= m < k &&
                      (StillRunning(streams[m].pairs) || SomeFell(old(streams)[m].pairs, streams[m].pairs))
        invariant !busy ==> forall m :: 0 <= m < k ==>
                  Rested(old(streams)[m].pairs, streams[m].pairs) && !KeepsGoing(streams[m])
        invariant !controlling && AllAtRest(old(streams)) ==>
                  streams == old(streams) && (busy <==> exists m :: 0 <= m < k && KeepsGoing(streams[m]))
      {
        ghost var before := streams;
        ghost var mid;
        var r, keep;
        r, keep, mid := TickStream(streams[k], controlling, t, now);
        if !keep {
          RestsWhenDone(streams[k], r);
        }
        if !controlling && AllAtRest(old(streams)) {
          assert r.pairs == streams[k].pairs;
        }
        streams := streams[k := r];
        busy := busy || keep;
        assert forall m :: 0 <= m < k ==> streams[m] == before[m];
        if keep && controlling {
          assert StillRunning(streams[k].pairs) || SomeFell(old(streams)[k].pairs, streams[k].pairs);
        }
      }
    }

    /** The timer of an agent that hears nothing, however long the waits between
        ticks and whatever the checks' timers.  After finitely many ticks it has
        stopped, or it ticks on for ever over lists with nothing to do, where no
        tick changes anything.  The latter happens to a controlled agent only, and
        exactly if from the start a stream had a valid pair that was not nominated
        and fewer nominated pairs than components. */
    method RunTimer(start: int) returns (idles: bool)
      requires forall k :: 0 <= k < |streams| ==> Covered(streams[k])
      modifies this`streams
      ensures AllAtRest(streams)
      ensures idles <==> exists k :: 0 <= k < |streams| && KeepsGoing(streams[k])
      ensures idles <==> !controlling && exists k :: 0 <= k < |old(streams)| && LacksNomination(old(streams)[k])
      ensures !controlling ==> AllKeepValid(old(streams), streams)
    {
      hide Nominated, AwaitsNomination, KeepsValid;
      KeepsAllValid(streams);
      var t := start;
      var keep := true;
      idles := false;
      while keep && !idles
        invariant forall k :: 0 <= k < |streams| ==> Covered(streams[k])
        invariant !keep ==> AllAtRest(streams) && !idles && forall k :: 0 <= k < |streams| ==> !KeepsGoing(streams[k])
        invariant !controlling ==> AllKeepValid(old(streams), streams)
        invariant idles ==>
                    !controlling && AllAtRest(streams) && exists k :: 0 <= k < |streams| && KeepsGoing(streams[k])
        decreases keep && !idles, StreamPhases(streams), StreamRunning(streams, t)
      {
        assert t + 1 > t;
        var now: int :| now > t;
        var resting := !controlling && AllAtRest(streams);
        ghost var before := streams;
        ghost var s, i;
        keep, s, i := Tick(t, now);
        idles := resting && keep;
        t := now;
        if !controlling {
          AllKeepValidTwice(old(streams), before, streams);
        }
      }
      RestsUnlessLacking(streams);
      if !controlling {
        StillLacks(old(streams), streams);
      }
    }
  }

  lemma KeepsAllValid(ss: seq<Stream>)
    ensures AllKeepValid(ss, ss)
  {
  }

  /** Lists at rest keep the timer going only for want of a nomination. */
  lemma RestsUnlessLacking(ss: seq<Stream>)
    requires AllAtRest(ss)
    ensures forall k :: 0 <= k < |ss| ==> (KeepsGoing(ss[k]) <==> LacksNomination(ss[k]))
  {
  }

  /** A controlled agent whose timer never stops: one component, whose one check has
      succeeded and is not nominated. */
  method IdleForEver() returns (idles: bool)
    ensures idles
  {
    var p := CheckPair(1, 2, 1, RolePriority(false, 2, 1), Succeeded, false, NoMessage, 0);
    var agent := new ConnCheckAgent([Stream([1], [p])], false);
    assert agent.streams[0].pairs[0] == p;
    assert LacksNomination(agent.streams[0]);
    idles := agent.RunTimer(0);
  }

  /** A pair that gives the timer nothing to do. */
  predicate AtRest(p: CheckPair) {
    p.state != InProgress && p.state != Waiting && (p.state == Frozen ==> p.priority == 0)
  }

  predicate AllAtRest(ss: seq<Stream>) {
    forall k, n :: 0 <= k < |ss| && 0 <= n < |ss[k].pairs| ==> AtRest(ss[k].pairs[n])
  }

  ghost predicate Falls(ss: seq<Stream>, t: int, rs: seq<Stream>, now: int) {
    || StreamPhases(rs) < StreamPhases(ss)
    || (StreamPhases(rs) == StreamPhases(ss) && StreamRunning(rs, now) < StreamRunning(ss, t))
  }

  ghost predicate Rested(l: seq<CheckPair>, r: seq<CheckPair>) {
    && |r| == |l|
    && forall n :: 0 <= n < |r| ==> r[n].state != InProgress && (l[n].state == InProgress || r[n] == l[n])
  }

  lemma RestsWhenDone(s: Stream, r: Stream)
    requires !KeepsGoing(r) && |r.pairs| == |s.pairs|
    requires forall i :: 0 <= i < |s.pairs| ==> s.pairs[i].state == InProgress || r.pairs[i] == s.pairs[i]
    ensures Rested(s.pairs, r.pairs)
  {
  }

  /** A check that ran before a tick runs on or has moved on. */
  lemma WasRunning(ss: seq<Stream>, rs: seq<Stream>, k: nat, n: nat, t: int, now: int)
    requires StreamsMove(ss, rs, t, now) && k < |ss| && n < |ss[k].pairs| && ss[k].pairs[n].state == InProgress
    ensures SomeFell(ss[k].pairs, rs[k].pairs) || StillRunning(rs[k].pairs)
  {
    assert AllMove(ss[k].pairs, rs[k].pairs, t, now);
    assert Moves(ss[k].pairs[n], rs[k].pairs[n], t, now);
    assert Phase(rs[k].pairs[n]) < Phase(ss[k].pairs[n]) || rs[k].pairs[n].state == InProgress;
  }

  lemma StreamsCovered(ss: seq<Stream>, rs: seq<Stream>, t: int, now: int)
    requires StreamsMove(ss, rs, t, now) && forall k :: 0 <= k < |ss| ==> Covered(ss[k])
    ensures forall k :: 0 <= k < |rs| ==> Covered(rs[k])
  {
    forall k | 0 <= k < |rs| ensures Covered(rs[k]) {
      assert Covered(ss[k]) && AllMove(ss[k].pairs, rs[k].pairs, t, now);
      CoveredStays(ss[k], rs[k].pairs, t, now);
    }
  }
}
