/** Candidate and pair priorities. */
module Candidates {
  import opened Seq32

  /** An IP number as bytes, and an address. */
  type Ip = seq<byte>

  datatype Address = Address(ip: Ip, port: nat)

  datatype CandidateType = Host | ServerReflexive | PeerReflexive | Relayed

  datatype Transport = Udp | TcpActive | TcpPassive | TcpSo

  const TYPE_PREF_HOST := 120
  const TYPE_PREF_PEER_REFLEXIVE := 110
  const TYPE_PREF_NAT_ASSISTED := 105
  const TYPE_PREF_SERVER_REFLEXIVE := 100
  const TYPE_PREF_RELAYED := 10

  function DirectionPreference(kind: CandidateType, transport: Transport): nat {
    match transport
    case TcpActive => if kind == ServerReflexive then 4 else 6
    case TcpPassive => if kind == ServerReflexive then 2 else 4
    case TcpSo => if kind == ServerReflexive then 6 else 2
    case Udp => 0
  }

  function LocalPreference(kind: CandidateType, transport: Transport): nat {
    if transport == Udp then 1 else 0x2000 * DirectionPreference(kind, transport) + 1
  }

  /** The preference of a type, halved for the transport that the agent would
      rather not use. */
  function TypePreference(kind: CandidateType, transport: Transport, reliable: bool, natAssisted: bool): nat {
    var preference :=
      match kind
      case Host => TYPE_PREF_HOST
      case PeerReflexive => TYPE_PREF_PEER_REFLEXIVE
      case ServerReflexive => if natAssisted then TYPE_PREF_NAT_ASSISTED else TYPE_PREF_SERVER_REFLEXIVE
      case Relayed => TYPE_PREF_RELAYED;
    if reliable == (transport == Udp) then preference / 2 else preference
  }

  lemma Preferences(kind: CandidateType, transport: Transport, reliable: bool, natAssisted: bool)
    ensures 1 <= LocalPreference(kind, transport) <= 0xC001
    ensures 5 <= TypePreference(kind, transport, reliable, natAssisted) <= 120
  {
  }

  function IcePriority(kind: CandidateType, transport: Transport, reliable: bool, natAssisted: bool,
                       component: nat): (p: u32)
    requires 1 <= component <= 256
  {
    Preferences(kind, transport, reliable, natAssisted);
    0x100_0000 * TypePreference(kind, transport, reliable, natAssisted)
    + 0x100 * LocalPreference(kind, transport) + (0x100 - component)
  }

  /** A candidate of a more preferred type comes first, whatever the transports
      and components; among equals the lower component does; and every priority
      lies in the range section 4.1.2 of RFC 5245 asks for. */
  lemma IcePriorityOrders(kind: CandidateType, transport: Transport, component: nat,
                          kind': CandidateType, transport': Transport, component': nat, reliable: bool,
                              natAssisted: bool)
    requires 1 <= component <= 256 && 1 <= component' <= 256
    ensures 0 < IcePriority(kind, transport, reliable, natAssisted, component) < 0x8000_0000
    ensures TypePreference(kind, transport, reliable, natAssisted)
              > TypePreference(kind', transport', reliable, natAssisted) ==>
              IcePriority(kind, transport, reliable, natAssisted, component)
              > IcePriority(kind', transport', reliable, natAssisted, component')
    ensures component < component' ==>
              IcePriority(kind, transport, reliable, natAssisted, component)
              > IcePriority(kind, transport, reliable, natAssisted, component')
  {
    hide LocalPreference, TypePreference;
    Preferences(kind, transport, reliable, natAssisted);
    Preferences(kind', transport', reliable, natAssisted);
  }

  /** What that means for types and transports.  For the same transport host candidates
      come before peer reflexive ones, these before server reflexive ones and those
      before relayed ones; and of the same type, one whose transport the agent prefers
      before one of the other kind. */
  lemma TypesOrder(x: Transport, y: Transport, c: nat, d: nat, reliable: bool, natAssisted: bool)
    requires 1 <= c <= 256 && 1 <= d <= 256
    ensures IcePriority(Host, x, reliable, natAssisted, c) > IcePriority(PeerReflexive, x, reliable, natAssisted, d)
    ensures IcePriority(PeerReflexive, x, reliable, natAssisted, c)
              > IcePriority(ServerReflexive, x, reliable, natAssisted, d)
    ensures IcePriority(ServerReflexive, x, reliable, natAssisted, c)
              > IcePriority(Relayed, x, reliable, natAssisted, d)
    ensures reliable == (x != Udp) && reliable != (y != Udp) ==>
              forall k: CandidateType ::
                IcePriority(k, x, reliable, natAssisted, c) > IcePriority(k, y, reliable, natAssisted, d)
  {
    hide LocalPreference;
    Preferences(Host, x, reliable, natAssisted);
    Preferences(PeerReflexive, x, reliable, natAssisted);
    Preferences(ServerReflexive, x, reliable, natAssisted);
    Preferences(Relayed, x, reliable, natAssisted);
    forall k: CandidateType | reliable == (x != Udp) && reliable != (y != Udp)
      ensures IcePriority(k, x, reliable, natAssisted, c) > IcePriority(k, y, reliable, natAssisted, d)
    {
      Preferences(k, x, reliable, natAssisted);
      Preferences(k, y, reliable, natAssisted);
    }
  }

  /** Section 5.7.2 of RFC 5245, in the arithmetic of the code: twice the maximum
      is computed in 32 bits. */
  function PairPriority(offer: u32, answer: u32): nat {
    0x1_0000_0000 * Min(offer, answer) + Wrap(2 * Max(offer, answer)) + (if offer > answer then 1 else 0)
  }

  /** Lexicographic order on (smaller, larger, controlling side larger). */
  predicate Precedes(o: u32, a: u32, o': u32, a': u32) {
    || Min(o, a) < Min(o', a')
    || (Min(o, a) == Min(o', a') && Max(o, a) < Max(o', a'))
    || (Min(o, a) == Min(o', a') && Max(o, a) == Max(o', a') && o <= a && o' > a')
  }

  /** The number orders pairs lexicographically, for priorities below 2^31. */
  lemma PairPriorityOrders(o: u32, a: u32, o': u32, a': u32)
    requires o < 0x8000_0000 && a < 0x8000_0000 && o' < 0x8000_0000 && a' < 0x8000_0000
    ensures PairPriority(o, a) < PairPriority(o', a') <==> Precedes(o, a, o', a')
  {
    hide Wrap;
    WrapNear(2 * Max(o, a));
    WrapNear(2 * Max(o', a'));
  }

  /** The number is made of the smaller and the larger priority and the last bit. */
  lemma PairPriorityParts(o: u32, a: u32)
    requires o < 0x8000_0000 && a < 0x8000_0000
    ensures PairPriority(o, a) / 2 == 0x8000_0000 * Min(o, a) + Max(o, a)
    ensures PairPriority(o, a) % 2 == if o > a then 1 else 0
  {
    hide Wrap;
    WrapNear(2 * Max(o, a));
  }

  /** Two numbers differ in the last bit at most exactly if they are made of the same
      two priorities. */
  lemma SameHalf(o: u32, a: u32, o': u32, a': u32)
    requires o < 0x8000_0000 && a < 0x8000_0000 && o' < 0x8000_0000 && a' < 0x8000_0000
    ensures PairPriority(o, a) / 2 == PairPriority(o', a') / 2 <==> Min(o, a) == Min(o', a') && Max(o, a) == Max(o', a')
    ensures PairPriority(o, a) % 2 == (if o > a then 1 else 0) && PairPriority(o', a') % 2 == (if o' > a' then 1 else 0)
    ensures PairPriority(o, a) / 2 < PairPriority(o', a') / 2 ==> PairPriority(o, a) < PairPriority(o', a')
  {
    hide PairPriority;
    PairPriorityParts(o, a);
    PairPriorityParts(o', a');
  }

  /** It no longer does when a priority reaches 2^31: a pair with a larger maximum
      then comes last. */
  lemma PairPriorityWraps()
    ensures Precedes(1, 1, 1, 0x8000_0000) && PairPriority(1, 0x8000_0000) < PairPriority(1, 1)
  {
  }

  /** Exchanging the roles changes the last bit at most. */
  lemma RoleSwapIsSmall(o: u32, a: u32)
    ensures PairPriority(o, a) / 2 == PairPriority(a, o) / 2
    ensures PairPriority(o, a) == PairPriority(a, o) <==> o == a
    ensures -1 <= PairPriority(o, a) - PairPriority(a, o) <= 1
  {
    hide Wrap;
    var m := Max(o, a);
    WrapNear(2 * m);
    assert Wrap(2 * m) % 2 == 0;
  }
}
