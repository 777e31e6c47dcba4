/** Foundations of candidates. */
module Foundations {
  import opened Seq32
  import opened Candidates
  import opened Text

  datatype Candidate = Candidate(
    kind: CandidateType, transport: Transport, stream: nat, addr: Address, base: Address, turn: Option<Ip>,
        foundation: string)

  datatype Component = Component(id: nat, local: seq<Candidate>)

  datatype Stream = Stream(id: nat, components: seq<Component>)

  /** What section 4.1.1.3 of RFC 5245 groups candidates by: type, base address
      and, for relayed candidates, the server; and the stream and transport. */
  datatype Group = Group(kind: CandidateType, transport: Transport, stream: nat, baseIp: Ip, server: Option<Option<Ip>>)

  function GroupOf(c: Candidate): Group {
    Group(c.kind, c.transport, c.stream, c.base.ip, if c.kind == Relayed then Some(c.turn) else None)
  }

  /** The comparison of priv_assign_foundation. */
  predicate SameGroup(c: Candidate, n: Candidate)
    ensures SameGroup(c, n) <==> GroupOf(c) == GroupOf(n)
  {
    && c.kind == n.kind && c.transport == n.transport && c.stream == n.stream && c.base.ip == n.base.ip
    && (c.kind != Relayed || c.turn == n.turn)
  }

  /** What a group is: type, transport, stream and base address, without the port, and for
      relayed candidates the server. */
  lemma GroupIs(c: Candidate, d: Candidate)
    ensures GroupOf(c) == GroupOf(d) <==>
            && c.kind == d.kind && c.transport == d.transport && c.stream == d.stream && c.base.ip == d.base.ip
            && (c.kind == Relayed ==> c.turn == d.turn)
  {
  }

  /** The comparison of priv_add_local_candidate_pruned. */
  predicate Redundant(c: Candidate, n: Candidate) {
    c.base == n.base && c.addr == n.addr && c.transport == n.transport
  }

  /** Candidate `c` is on some list. */
  ghost predicate Live(ss: seq<Stream>, c: Candidate) {
    exists s, k, n :: 0 <= s < |ss| && 0 <= k < |ss[s].components| && 0 <= n < |ss[s].components[k].local|
      && ss[s].components[k].local[n] == c
  }

  // Remote foundations -------------------------------------------------------

  function RemoteName(k: nat): string { "remote-" + Decimal(k) }

  lemma RemoteNameInjective(j: nat, k: nat)
    requires RemoteName(j) == RemoteName(k)
    ensures j == k
  {
    assert RemoteName(j)[7..] == Decimal(j) && RemoteName(k)[7..] == Decimal(k);
    DecimalInjective(j, k);
  }

  /** The names 1 to `n`. */
  ghost function Names(n: nat): (r: set<string>) {
    if n == 0 then {} else Names(n - 1) + {RemoteName(n)}
  }

  lemma {:induction false} NamesAre(n: nat, x: string)
    requires x in Names(n)
    ensures exists j :: 1 <= j <= n && x == RemoteName(j)
  {
    hide RemoteName;
    if x != RemoteName(n) {
      NamesAre(n - 1, x);
    }
  }

  lemma {:induction false} NamesCount(n: nat)
    ensures |Names(n)| == n
  {
    hide RemoteName;
    if n > 0 {
      NamesCount(n - 1);
      if RemoteName(n) in Names(n - 1) {
        NamesAre(n - 1, RemoteName(n));
        var j :| 1 <= j <= n - 1 && RemoteName(n) == RemoteName(j);
        RemoteNameInjective(n, j);
      }
    }
  }

  lemma {:induction false} FewElements(s: seq<string>)
    ensures |set x | x in s| <= |s|
  {
    if s != [] {
      FewElements(s[1..]);
      assert (set x | x in s) == (set x | x in s[1..]) + {s[0]};
    }
  }

  /** Pigeonhole: a list cannot hold more names than it has entries. */
  lemma {:induction false} NamesFit(taken: seq<string>, n: nat)
    requires forall k :: 1 <= k <= n ==> RemoteName(k) in taken
    ensures n <= |taken|
  {
    NamesCount(n);
    FewElements(taken);
    NamesIn(taken, n);
    SubsetSize(Names(n), set x | x in taken);
  }

  lemma {:induction false} NamesIn(taken: seq<string>, n: nat)
    requires forall k :: 1 <= k <= n ==> RemoteName(k) in taken
    ensures Names(n) <= set x | x in taken
  {
    if n > 0 {
      NamesIn(taken, n - 1);
    }
  }

  lemma {:induction false} SubsetSize(a: set<string>, b: set<string>)
    requires a <= b
    ensures |a| <= |b|
    decreases |a|
  {
    if a != {} {
      var x :| x in a;
      SubsetSize(a - {x}, b - {x});
    }
  }

  /** priv_highest_remote_foundation: the least number that is free, found within
      one step more than there are candidates. */
  method HighestRemoteFoundation(taken: seq<string>) returns (highest: nat)
    ensures 1 <= highest <= |taken| + 1
    ensures RemoteName(highest) !in taken
    ensures forall k :: 1 <= k < highest ==> RemoteName(k) in taken
  {
    highest := 1;
    while true
      invariant 1 <= highest <= |taken| + 1
      invariant forall k :: 1 <= k < highest ==> RemoteName(k) in taken
      decreases |taken| + 1 - highest
    {
      var isTaken := false;
      for i := 0 to |taken|
        invariant !isTaken && RemoteName(highest) !in taken[..i]
      {
        if taken[i] == RemoteName(highest) {
          isTaken := true;
          break;
        }
        assert taken[..i + 1] == taken[..i] + [taken[i]];
      }
      if !isTaken {
        assert taken[..|taken|] == taken;
        return;
      }
      NamesFit(taken, highest);
      highest := highest + 1;
    }
  }

  // Local foundations --------------------------------------------------------

  /** Two live candidates share a foundation exactly when they are in one group,
      and the numbers to come are not in use. */
  ghost predicate Classified(ss: seq<Stream>, next: nat) {
    && (forall c, d :: Live(ss, c) && Live(ss, d) ==> (c.foundation == d.foundation <==> GroupOf(c) == GroupOf(d)))
    && (forall c :: Live(ss, c) ==> exists k :: 0 <= k < next && c.foundation == Decimal(k))
  }

  /** No component holds two candidates with the same base, address and
      transport. */
  ghost predicate Pruned(ss: seq<Stream>) {
    forall s, k, m, n :: 0 <= s < |ss| && 0 <= k < |ss[s].components| && 0 <= m < n < |ss[s].components[k].local| ==>
      !Redundant(ss[s].components[k].local[m], ss[s].components[k].local[n])
  }

  /** Candidate `c` appended to component `k` of stream `s`. */
  function Appended(ss: seq<Stream>, s: nat, k: nat, c: Candidate): seq<Stream>
    requires s < |ss| && k < |ss[s].components|
  {
    var comp := ss[s].components[k];
    ss[s := ss[s].(components := ss[s].components[k := comp.(local := comp.local + [c])])]
  }

  /** Who is live after that. */
  lemma AppendedLive(ss: seq<Stream>, s: nat, k: nat, c: Candidate, d: Candidate)
    requires s < |ss| && k < |ss[s].components|
    ensures Live(Appended(ss, s, k, c), d) <==> Live(ss, d) || d == c
  {
    var ts := Appended(ss, s, k, c);
    var was := ss[s].components[k].local;
    assert ts[s].components[k].local == was + [c];
    if Live(ts, d) {
      var s', k', n :| 0 <= s' < |ts| && 0 <= k' < |ts[s'].components| && 0 <= n < |ts[s'].components[k'].local|
          && ts[s'].components[k'].local[n] == d;
      if s' == s && k' == k {
        if n < |was| {
          assert ss[s].components[k].local[n] == d;
        }
      } else {
        assert ss[s'].components[k'].local[n] == d;
      }
    }
    if Live(ss, d) {
      var s', k', n :| 0 <= s' < |ss| && 0 <= k' < |ss[s'].components| && 0 <= n < |ss[s'].components[k'].local|
          && ss[s'].components[k'].local[n] == d;
      assert ts[s'].components[k'].local[n] == d;
    }
    if d == c {
      assert ts[s].components[k].local[|was|] == d;
    }
  }

  /** The agent's candidates and the number of the next foundation. */
  class Discovery {
    var streams: seq<Stream>
    var nextCandidateId: nat

    ghost predicate Valid()
      reads this
    {
      Classified(streams, nextCandidateId) && Pruned(streams)
    }

    constructor (ss: seq<Stream>)
      requires forall s, k :: 0 <= s < |ss| && 0 <= k < |ss[s].components| ==> ss[s].components[k].local == []
      ensures Valid() && streams == ss
    {
      streams, nextCandidateId := ss, 1;
    }

    /** A live candidate of the same group, if there is one (the three loops of
        priv_assign_foundation). */
    method FindGroup(c: Candidate) returns (r: Option<Candidate>)
      ensures r.Some? ==> Live(streams, r.value) && GroupOf(r.value) == GroupOf(c)
      ensures r.None? ==> forall d :: Live(streams, d) ==> GroupOf(d) != GroupOf(c)
    {
      for s := 0 to |streams|
        invariant forall s', k, n ::
                    0 <= s' < s && 0 <= k < |streams[s'].components| && 0 <= n < |streams[s'].components[k].local| ==>
                    GroupOf(streams[s'].components[k].local[n]) != GroupOf(c)
      {
        var components := streams[s].components;
        for k := 0 to |components|
          invariant forall k', n :: 0 <= k' < k && 0 <= n < |components[k'].local| ==>
                    GroupOf(components[k'].local[n]) != GroupOf(c)
        {
          var local := components[k].local;
          for n := 0 to |local|
            invariant forall n' :: 0 <= n' < n ==> GroupOf(local[n']) != GroupOf(c)
          {
            if SameGroup(c, local[n]) {
              assert streams[s].components[k].local[n] == local[n];
              return Some(local[n]);
            }
          }
        }
      }
      return None;
    }

    /** priv_assign_foundation */
    method AssignFoundation(c: Candidate) returns (r: Candidate)
      requires Valid()
      modifies this`nextCandidateId
      ensures Valid() && r == c.(foundation := r.foundation)
      ensures forall d :: Live(streams, d) ==> (d.foundation == r.foundation <==> GroupOf(d) == GroupOf(r))
      ensures exists k :: 0 <= k < nextCandidateId && r.foundation == Decimal(k)
    {
      hide Decimal, Live;
      var mate := FindGroup(c);
      if mate.Some? {
        r := c.(foundation := mate.value.foundation);
        return;
      }
      r := c.(foundation := Decimal(nextCandidateId));
      forall d | Live(streams, d) ensures d.foundation != r.foundation {
        ghost var k :| 0 <= k < nextCandidateId && d.foundation == Decimal(k);
        if d.foundation == r.foundation {
          DecimalInjective(k, nextCandidateId);
        }
      }
      nextCandidateId := nextCandidateId + 1;
    }

    /** A candidate discovered for a component: it gets a foundation and joins the
        list unless it is redundant there. */
    method AddLocalCandidate(s: nat, k: nat, c: Candidate) returns (added: bool, ghost r: Candidate)
      requires Valid() && s < |streams| && k < |streams[s].components|
      modifies this
      ensures Valid() && r == c.(foundation := r.foundation)
      ensures added <==> forall n :: 0 <= n < |old(streams)[s].components[k].local| ==>
                !Redundant(old(streams)[s].components[k].local[n], c)
      ensures streams == if added then Appended(old(streams), s, k, r) else old(streams)
    {
      var named := AssignFoundation(c);
      r := named;
      var local := streams[s].components[k].local;
      for n := 0 to |local|
        invariant forall m :: 0 <= m < n ==> !Redundant(local[m], c)
      {
        if Redundant(local[n], named) {
          return false, r;
        }
      }
      added := true;
      AppendKeepsClasses(streams, s, k, named, nextCandidateId);
      AppendKeepsPruned(streams, s, k, named);
      streams := Appended(streams, s, k, named);
    }

    /** A stream is removed with its candidates; the numbers stay used. */
    method RemoveStream(s: nat)
      requires Valid() && s < |streams|
      modifies this`streams
      ensures Valid() && streams == old(streams)[..s] + old(streams)[s + 1..]
    {
      RemoveKeepsClasses(streams, s, nextCandidateId);
      streams := streams[..s] + streams[s + 1..];
    }
  }

  lemma AppendKeepsClasses(ss: seq<Stream>, s: nat, k: nat, r: Candidate, next: nat)
    requires Classified(ss, next) && s < |ss| && k < |ss[s].components|
    requires forall d :: Live(ss, d) ==> (d.foundation == r.foundation <==> GroupOf(d) == GroupOf(r))
    requires exists i :: 0 <= i < next && r.foundation == Decimal(i)
    ensures Classified(Appended(ss, s, k, r), next)
  {
    hide Live, Appended, Decimal;
    var ts := Appended(ss, s, k, r);
    forall c, d | Live(ts, c) && Live(ts, d) ensures c.foundation == d.foundation <==> GroupOf(c) == GroupOf(d) {
      AppendedLive(ss, s, k, r, c);
      AppendedLive(ss, s, k, r, d);
    }
    forall c | Live(ts, c) ensures exists i :: 0 <= i < next && c.foundation == Decimal(i) {
      AppendedLive(ss, s, k, r, c);
    }
  }

  lemma AppendKeepsPruned(ss: seq<Stream>, s: nat, k: nat, r: Candidate)
    requires Pruned(ss) && s < |ss| && k < |ss[s].components|
    requires forall n :: 0 <= n < |ss[s].components[k].local| ==> !Redundant(ss[s].components[k].local[n], r)
    ensures Pruned(Appended(ss, s, k, r))
  {
    hide Redundant;
    var ts := Appended(ss, s, k, r);
    var was := ss[s].components[k].local;
    assert ts[s].components[k].local == was + [r];
    forall s', k', m, n | 0 <= s' < |ts| && 0 <= k' < |ts[s'].components| && 0 <= m < n < |ts[s'].components[k'].local|
      ensures !Redundant(ts[s'].components[k'].local[m], ts[s'].components[k'].local[n])
    {
      if s' != s || k' != k {
        assert ts[s'].components[k'] == ss[s'].components[k'];
      } else if n < |was| {
        assert !Redundant(ss[s].components[k].local[m], ss[s].components[k].local[n]);
      }
    }
  }

  lemma RemoveKeepsClasses(ss: seq<Stream>, s: nat, next: nat)
    requires Classified(ss, next) && Pruned(ss) && s < |ss|
    ensures Classified(ss[..s] + ss[s + 1..], next) && Pruned(ss[..s] + ss[s + 1..])
  {
    hide Redundant, Decimal;
    var ts := ss[..s] + ss[s + 1..];
    forall c | Live(ts, c) ensures Live(ss, c) {
      var s', k', n :| 0 <= s' < |ts| && 0 <= k' < |ts[s'].components| && 0 <= n < |ts[s'].components[k'].local|
          && ts[s'].components[k'].local[n] == c;
      var s'' := if s' < s then s' else s' + 1;
      assert ss[s''] == ts[s'] && ss[s''].components[k'].local[n] == c;
    }
    forall s', k', m, n | 0 <= s' < |ts| && 0 <= k' < |ts[s'].components| && 0 <= m < n < |ts[s'].components[k'].local|
      ensures !Redundant(ts[s'].components[k'].local[m], ts[s'].components[k'].local[n])
    {
      var s'' := if s' < s then s' else s' + 1;
      assert ss[s''] == ts[s'] && !Redundant(ss[s''].components[k'].local[m], ss[s''].components[k'].local[n]);
    }
  }
}
