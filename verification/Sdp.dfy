/** Candidates and streams as SDP: section 15.1 of RFC 5245 and section 4.5 of
    RFC 6544. */
module Sdp {
  import opened Seq32
  import opened Candidates
  import opened Text

  /** `base` is absent when the base address is not valid. */
  datatype Candidate = Candidate(
    foundation: string, component: u32, transport: Transport, priority: u32, addr: Address, kind: CandidateType,
        base: Option<Address>)

  /** How IP numbers are written and read (inet_ntop, getaddrinfo). */
  datatype AddressText = AddressText(write: Ip -> string, read: string -> Option<Ip>)

  ghost predicate Faithful(t: AddressText) {
    forall ip :: t.read(t.write(ip)) == Some(ip) && Without(t.write(ip), ' ') && Without(t.write(ip), '\n')
  }

  const CANDIDATE := "a=candidate:"
  const UFRAG := "a=ice-ufrag:"
  const PWD := "a=ice-pwd:"
  const MAX_FOUNDATION := 32

  predicate HasPrefix(s: string, p: string) { |p| <= |s| && s[..|p|] == p }

  // Writing ------------------------------------------------------------------

  function KindName(k: CandidateType): string {
    match k
    case Host => "host"
    case ServerReflexive => "srflx"
    case PeerReflexive => "prflx"
    case Relayed => "relay"
  }

  function TcpTypeName(t: Transport): string {
    match t
    case TcpActive => "active"
    case TcpPassive => "passive"
    case TcpSo => "so"
    case Udp => ""
  }

  /** A port as written: 9 stands for none. */
  function WrittenPort(port: nat): nat { if port == 0 then 9 else port }

  predicate WritesBase(c: Candidate) { c.base.Some? && c.base.value != c.addr }

  /** The fields of a candidate line in the order they are written.  The port after
      `rport` is the candidate's own. */
  function Tokens(c: Candidate, t: AddressText): (r: seq<string>)
    ensures |r| >= 8
  {
    [c.foundation, Signed(c.component), if c.transport == Udp then "UDP"
        else "TCP", Signed(c.priority), t.write(c.addr.ip),
     Decimal(WrittenPort(c.addr.port)), "typ", KindName(c.kind)]
    + (if WritesBase(c) then ["raddr", t.write(c.base.value.ip), "rport", Decimal(WrittenPort(c.addr.port))] else [])
    + (if c.transport != Udp then ["tcptype", TcpTypeName(c.transport)] else [])
  }

  /** _generate_candidate_sdp: the fields with single blanks between them. */
  function CandidateLine(c: Candidate, t: AddressText): string { CANDIDATE + Join(Tokens(c, t), ' ') }

  // Reading ------------------------------------------------------------------

  /** What the tokens of a candidate line say. */
  datatype Fields = Fields(
    foundation: string, component: nat, transport: Option<string>, priority: nat, addr: string, port: nat,
    typ: Option<string>, tcptype: Option<string>, raddr: Option<string>, rport: nat)

  const NOTHING := Fields("", 0, None, 0, "", 0, None, None, None, 0)

  /** The token at position `i` among the first six. */
  function Place(f: Fields, i: nat, token: string): Fields {
    match i
    case 0 => f.(foundation := token)
    case 1 => f.(component := StrToULL(token) % 0x1_0000_0000)
    case 2 => f.(transport := Some(token))
    case 3 => f.(priority := StrToULL(token) % 0x1_0000_0000)
    case 4 => f.(addr := token)
    case 5 => f.(port := StrToULL(token) % 0x1_0000)
    case _ => f
  }

  function Attribute(f: Fields, key: string, value: string): Fields {
    if key == "typ" then f.(typ := Some(value))
    else if key == "raddr" then f.(raddr := Some(value))
    else if key == "rport" then f.(rport := StrToULL(value) % 0x1_0000)
    else if key == "tcptype" then f.(tcptype := Some(value))
    else f
  }

  /** The tokens from position `i` on; attributes come in pairs. */
  function ReadFrom(tokens: seq<string>, i: nat, f: Fields): Option<Fields>
    decreases |tokens| - i
  {
    if i >= |tokens| then Some(f)
    else if i < 6 then ReadFrom(tokens, i + 1, Place(f, i, tokens[i]))
    else if i + 1 == |tokens| then None
    else ReadFrom(tokens, i + 2, Attribute(f, tokens[i], tokens[i + 1]))
  }

  /** The loop of nice_agent_parse_remote_candidate_sdp. */
  method ReadTokens(tokens: seq<string>) returns (r: Option<Fields>)
    ensures r == ReadFrom(tokens, 0, NOTHING)
  {
    var f := NOTHING;
    var i := 0;
    while i < |tokens|
      invariant 0 <= i
      invariant ReadFrom(tokens, i, f) == ReadFrom(tokens, 0, NOTHING)
    {
      if i < 6 {
        f := Place(f, i, tokens[i]);
      } else {
        if i + 1 == |tokens| {
          return None;
        }
        f := Attribute(f, tokens[i], tokens[i + 1]);
        i := i + 1;
      }
      i := i + 1;
    }
    return Some(f);
  }

  function KindNamed(s: string): Option<CandidateType> {
    if s == "host" then Some(Host)
    else if s == "srflx" then Some(ServerReflexive)
    else if s == "prflx" then Some(PeerReflexive)
    else if s == "relay" then Some(Relayed)
    else None
  }

  function Lower(s: string): string {
    if s == [] then []
    else [if 'A' <= s[0] <= 'Z' then (s[0] as int + 32) as char else s[0]] + Lower(s[1..])
  }

  /** g_ascii_strcasecmp is 0: also when the first string is missing. */
  predicate SameText(s: Option<string>, t: string) { s.None? || Lower(s.value) == Lower(t) }

  function TransportNamed(transport: Option<string>, tcptype: Option<string>): Option<Transport> {
    if SameText(transport, "UDP") then Some(Udp)
    else if SameText(transport, "TCP-SO") then Some(TcpSo)
    else if SameText(transport, "TCP-ACT") then Some(TcpActive)
    else if SameText(transport, "TCP-PASS") then Some(TcpPassive)
    else if SameText(transport, "TCP") then
      if SameText(tcptype, "so") then Some(TcpSo)
      else if SameText(tcptype, "active") then Some(TcpActive)
      else if SameText(tcptype, "passive") then Some(TcpPassive)
      else None
    else None
  }

  /** The candidate that the fields describe, if they describe one. */
  function Describe(f: Fields, t: AddressText): Option<Candidate> {
    if f.typ.None? || KindNamed(f.typ.value).None? then None
    else if TransportNamed(f.transport, f.tcptype).None? then None
    else if t.read(f.addr).None? then None
    else if f.raddr.Some? && f.rport != 0 && t.read(f.raddr.value).None? then None
    else
      Some(Candidate(
        if |f.foundation| <= MAX_FOUNDATION then f.foundation else f.foundation[..MAX_FOUNDATION],
        f.component % 0x1_0000_0000, TransportNamed(f.transport, f.tcptype).value, f.priority % 0x1_0000_0000,
        Address(t.read(f.addr).value, f.port), KindNamed(f.typ.value).value,
        if f.raddr.Some? && f.rport != 0 then Some(Address(t.read(f.raddr.value).value, f.rport)) else None))
  }

  /** nice_agent_parse_remote_candidate_sdp */
  function ParseCandidate(line: string, t: AddressText): Option<Candidate> {
    if !HasPrefix(line, CANDIDATE) then None
    else
      var f := ReadFrom(Split(line[12..], ' '), 0, NOTHING);
      if f.None? then None else Describe(f.value, t)
  }

  // A candidate there and back -----------------------------------------------

  /** A candidate as the agent keeps it: its foundation fits its field and holds no
      blanks, its port is one. */
  ghost predicate WellFormed(c: Candidate) {
    && |c.foundation| <= MAX_FOUNDATION && Without(c.foundation, ' ') && Without(c.foundation, '\n')
    && c.addr.port < 0x1_0000
  }

  /** What arrives at the other end: all but the base address, whose port is
      written wrongly, and the absence of a port. */
  function Arriving(c: Candidate): Candidate {
    var port := WrittenPort(c.addr.port);
    c.(addr := c.addr.(port := port), base := if WritesBase(c) then Some(Address(c.base.value.ip, port)) else None)
  }

  /** Fields after the first six tokens. */
  lemma PlaceSix(c: Candidate, t: AddressText)
    requires WellFormed(c)
    ensures ReadFrom(Tokens(c, t), 0, NOTHING) ==
            ReadFrom(Tokens(c, t), 6, NOTHING.(foundation := c.foundation, component := c.component,
              transport := Some(if c.transport == Udp then "UDP" else "TCP"), priority := c.priority,
              addr := t.write(c.addr.ip), port := WrittenPort(c.addr.port)))
  {
    hide StrToULL, Signed, Decimal;
    var ts := Tokens(c, t);
    ReadSigned(c.component);
    ReadSigned(c.priority);
    ReadDecimal(WrittenPort(c.addr.port));
    var f1 := Place(NOTHING, 0, ts[0]);
    var f2 := Place(f1, 1, ts[1]);
    var f3 := Place(f2, 2, ts[2]);
    var f4 := Place(f3, 3, ts[3]);
    var f5 := Place(f4, 4, ts[4]);
    var f6 := Place(f5, 5, ts[5]);
    assert ReadFrom(ts, 0, NOTHING) == ReadFrom(ts, 1, f1) == ReadFrom(ts, 2, f2) == ReadFrom(ts, 3, f3);
    assert ReadFrom(ts, 3, f3) == ReadFrom(ts, 4, f4) == ReadFrom(ts, 5, f5) == ReadFrom(ts, 6, f6);
  }

  lemma ReadAttribute(ts: seq<string>, i: nat, f: Fields, key: string, value: string)
    requires 6 <= i && i + 1 < |ts| && ts[i] == key && ts[i + 1] == value
    ensures ReadFrom(ts, i, f) == ReadFrom(ts, i + 2, Attribute(f, key, value))
  {
  }

  lemma ReadEnd(ts: seq<string>, f: Fields)
    ensures ReadFrom(ts, |ts|, f) == Some(f)
  {
  }

  /** Fields after all tokens. */
  lemma ReadTokensBack(c: Candidate, t: AddressText)
    requires WellFormed(c)
    ensures ReadFrom(Tokens(c, t), 0, NOTHING) ==
            Some(Fields(c.foundation, c.component, Some(if c.transport == Udp then "UDP" else "TCP"), c.priority,
              t.write(c.addr.ip), WrittenPort(c.addr.port), Some(KindName(c.kind)),
              if c.transport == Udp then None else Some(TcpTypeName(c.transport)),
              if WritesBase(c) then Some(t.write(c.base.value.ip)) else None,
              if WritesBase(c) then WrittenPort(c.addr.port) else 0))
  {
    hide StrToULL, Signed, Decimal, ReadFrom;
    var ts := Tokens(c, t);
    PlaceSix(c, t);
    ReadDecimal(WrittenPort(c.addr.port));
    var f := NOTHING.(foundation := c.foundation, component := c.component,
                      transport := Some(if c.transport == Udp then "UDP" else "TCP"), priority := c.priority,
                      addr := t.write(c.addr.ip), port := WrittenPort(c.addr.port));
    ReadAttribute(ts, 6, f, "typ", KindName(c.kind));
    f := Attribute(f, "typ", KindName(c.kind));
    var i := 8;
    if WritesBase(c) {
      ReadAttribute(ts, 8, f, "raddr", t.write(c.base.value.ip));
      f := Attribute(f, "raddr", t.write(c.base.value.ip));
      ReadAttribute(ts, 10, f, "rport", Decimal(WrittenPort(c.addr.port)));
      f := Attribute(f, "rport", Decimal(WrittenPort(c.addr.port)));
      i := 12;
    }
    if c.transport != Udp {
      ReadAttribute(ts, i, f, "tcptype", TcpTypeName(c.transport));
      f := Attribute(f, "tcptype", TcpTypeName(c.transport));
      i := i + 2;
    }
    assert i == |ts|;
    ReadEnd(ts, f);
  }

  lemma DigitsHaveNoBlanks(s: string)
    requires forall i :: 0 <= i < |s| ==> IsDigit(s[i])
    ensures Without(s, ' ') && Without(s, '\n')
  {
  }

  lemma NumbersHaveNoBlanks(n: nat)
    requires n < 0x1_0000_0000
    ensures Without(Decimal(n), ' ') && Without(Decimal(n), '\n') && Without(Signed(n), ' ') && Without(Signed(n), '\n')
  {
    DigitsHaveNoBlanks(Decimal(n));
    if n >= 0x8000_0000 {
      DigitsHaveNoBlanks(Decimal(0x1_0000_0000 - n));
    }
  }

  lemma TokensHaveNoBlanks(c: Candidate, t: AddressText, i: nat)
    requires WellFormed(c) && Faithful(t) && i < |Tokens(c, t)|
    ensures Without(Tokens(c, t)[i], ' ') && Without(Tokens(c, t)[i], '\n')
  {
    hide Signed, Decimal, KindName, TcpTypeName, Without;
    NumbersHaveNoBlanks(c.component);
    NumbersHaveNoBlanks(c.priority);
    NumbersHaveNoBlanks(WrittenPort(c.addr.port));
    WordsHaveNoBlanks(c.kind, c.transport);
  }

  /** The fixed words of a candidate line. */
  lemma WordsHaveNoBlanks(k: CandidateType, x: Transport)
    ensures forall w :: w in [KindName(k), TcpTypeName(x), "UDP", "TCP", "typ", "raddr", "rport", "tcptype"] ==>
              Without(w, ' ') && Without(w, '\n')
  {
    assert Without(KindName(k), ' ') && Without(KindName(k), '\n');
    assert Without(TcpTypeName(x), ' ') && Without(TcpTypeName(x), '\n');
  }

  /** The names differ in length, or in their first letter. */
  lemma NamesDiffer()
    ensures Lower("UDP") != Lower("TCP") && |Lower("TCP")| == 3
    ensures |Lower("TCP-SO")| == 6 && |Lower("TCP-ACT")| == 7 && |Lower("TCP-PASS")| == 8
    ensures |Lower("so")| == 2 && |Lower("active")| == 6 && |Lower("passive")| == 7
  {
    LowerLength("TCP");
    LowerLength("TCP-SO");
    LowerLength("TCP-ACT");
    LowerLength("TCP-PASS");
    LowerLength("so");
    LowerLength("active");
    LowerLength("passive");
    assert Lower("UDP")[0] == 'u' && Lower("TCP")[0] == 't';
  }

  lemma {:induction false} LowerLength(s: string)
    ensures |Lower(s)| == |s|
  {
    if s != [] {
      LowerLength(s[1..]);
    }
  }

  lemma TransportBack(x: Transport)
    ensures TransportNamed(Some(if x == Udp then "UDP" else "TCP"), if x == Udp then None
              else Some(TcpTypeName(x))) == Some(x)
  {
    hide Lower;
    NamesDiffer();
  }

  /** Reading a written candidate recovers foundation, component, transport,
      priority, address, port and type. */
  lemma CandidateRoundTrip(c: Candidate, t: AddressText)
    requires WellFormed(c) && Faithful(t)
    ensures ParseCandidate(CandidateLine(c, t), t) == Some(Arriving(c))
  {
    hide Signed, Decimal, ReadFrom, Join, Pieces, TransportNamed, Lower, StrToULL;
    var ts := Tokens(c, t);
    var line := CandidateLine(c, t);
    assert line[12..] == Join(ts, ' ') && line[..12] == CANDIDATE;
    forall i | 0 <= i < |ts| ensures Without(ts[i], ' ') {
      TokensHaveNoBlanks(c, t, i);
    }
    SplitJoin(ts, ' ');
    JoinNotEmpty(ts);
    ReadTokensBack(c, t);
    TransportBack(c.transport);
  }

  lemma JoinNotEmpty(ts: seq<string>)
    requires |ts| > 1
    ensures Join(ts, ' ') != []
  {
  }

  /** The base address survives exactly if it is not written, or if its port
      happens to be the candidate's own. */
  lemma BaseSurvives(c: Candidate)
    ensures Arriving(c).base == c.base <==>
            c.base.None? || (c.base.value != c.addr && c.base.value.port == WrittenPort(c.addr.port))
  {
  }

  // A TCP candidate without its type ------------------------------------------

  /** The value of the last attribute named `key` of a line with whole pairs. */
  function Value(ts: seq<string>, key: string): Option<string>
    requires |ts| >= 6 && |ts| % 2 == 0
  {
    if |ts| == 6 then None
    else if ts[|ts| - 2] == key then Some(ts[|ts| - 1])
    else Value(ts[..|ts| - 2], key)
  }

  function Number(s: Option<string>): nat { if s.None? then 0 else StrToULL(s.value) % 0x1_0000 }

  /** One more attribute at the end of a line. */
  lemma {:induction false} ReadOneMore(ts: seq<string>, i: nat, f: Fields, key: string, value: string)
    requires i <= |ts| && 6 <= |ts| && |ts| % 2 == 0 && (i >= 6 ==> i % 2 == 0)
    ensures ReadFrom(ts, i, f).Some?
    ensures ReadFrom(ts + [key, value], i, f) == Some(Attribute(ReadFrom(ts, i, f).value, key, value))
    decreases |ts| - i
  {
    hide Place, Attribute;
    var us := ts + [key, value];
    if i == |ts| {
      ReadAttribute(us, i, f, key, value);
      ReadEnd(us, Attribute(f, key, value));
    } else {
      assert us[i] == ts[i];
      if i < 6 {
        ReadOneMore(ts, i + 1, Place(f, i, ts[i]), key, value);
      } else {
        assert us[i + 1] == ts[i + 1];
        ReadOneMore(ts, i + 2, Attribute(f, ts[i], ts[i + 1]), key, value);
      }
    }
  }

  /** What is read of a line with whole pairs: six fields by their place, and of every
      attribute the last. */
  lemma {:induction false} FieldsRead(ts: seq<string>)
    requires |ts| >= 6 && |ts| % 2 == 0
    ensures ReadFrom(ts, 0, NOTHING) ==
            Some(Fields(ts[0], StrToULL(ts[1]) % 0x1_0000_0000, Some(ts[2]), StrToULL(ts[3]) % 0x1_0000_0000, ts[4],
                        StrToULL(ts[5]) % 0x1_0000, Value(ts, "typ"), Value(ts, "tcptype"), Value(ts, "raddr"),
                        Number(Value(ts, "rport"))))
  {
    hide StrToULL;
    if |ts| == 6 {
      SixFields(ts);
    } else {
      var us := ts[..|ts| - 2];
      FieldsRead(us);
      ReadOneMore(us, 0, NOTHING, ts[|ts| - 2], ts[|ts| - 1]);
      assert ts == us + [ts[|ts| - 2], ts[|ts| - 1]];
    }
  }

  lemma SixFields(ts: seq<string>)
    requires |ts| == 6
    ensures ReadFrom(ts, 0, NOTHING) ==
            Some(Fields(ts[0], StrToULL(ts[1]) % 0x1_0000_0000, Some(ts[2]), StrToULL(ts[3]) % 0x1_0000_0000, ts[4],
                        StrToULL(ts[5]) % 0x1_0000, None, None, None, 0))
  {
    hide StrToULL;
    var f1 := Place(NOTHING, 0, ts[0]);
    var f2 := Place(f1, 1, ts[1]);
    var f3 := Place(f2, 2, ts[2]);
    var f4 := Place(f3, 3, ts[3]);
    var f5 := Place(f4, 4, ts[4]);
    assert ReadFrom(ts, 0, NOTHING) == ReadFrom(ts, 1, f1) == ReadFrom(ts, 2, f2) == ReadFrom(ts, 3, f3);
    assert ReadFrom(ts, 3, f3) == ReadFrom(ts, 4, f4) == ReadFrom(ts, 5, f5) == Some(Place(f5, 5, ts[5]));
  }

  /** With too few fields, or half a pair, no type or nothing at all is read. */
  lemma {:induction false} NothingRead(ts: seq<string>, i: nat, f: Fields)
    requires i <= |ts| && (i >= 6 ==> i % 2 == 0)
    ensures |ts| < 6 ==> ReadFrom(ts, i, f).Some? && ReadFrom(ts, i, f).value.typ == f.typ
    ensures |ts| >= 6 && |ts| % 2 == 1 ==> ReadFrom(ts, i, f).None?
    decreases |ts| - i
  {
    hide StrToULL;
    if i < |ts| && i < 6 {
      NothingRead(ts, i + 1, Place(f, i, ts[i]));
    } else if i + 1 < |ts| {
      NothingRead(ts, i + 2, Attribute(f, ts[i], ts[i + 1]));
    }
  }

  /** The fields of a candidate but for its transport: whole pairs, a type that there
      is, an address that can be read, and a base address that can be read unless it
      has no port. */
  predicate Describes(ts: seq<string>, t: AddressText) {
    && |ts| >= 6 && |ts| % 2 == 0
    && Value(ts, "typ").Some? && KindNamed(Value(ts, "typ").value).Some?
    && t.read(ts[4]).Some?
    && (Value(ts, "raddr").None? || Number(Value(ts, "rport")) == 0 || t.read(Value(ts, "raddr").value).Some?)
  }

  /** A candidate line whose transport is TCP, in any spelling, and that has no
      attribute `tcptype` is accepted exactly if its other fields describe a
      candidate, and then taken for simultaneous open. */
  lemma MissingTcpType(line: string, t: AddressText)
    requires HasPrefix(line, CANDIDATE)
    requires var ts := Split(line[12..], ' ');
             && |ts| > 2 && Lower(ts[2]) == Lower("TCP")
             && (|ts| >= 6 && |ts| % 2 == 0 ==> Value(ts, "tcptype") == None)
    ensures ParseCandidate(line, t).Some? <==> Describes(Split(line[12..], ' '), t)
    ensures ParseCandidate(line, t).Some? ==> ParseCandidate(line, t).value.transport == TcpSo
  {
    hide Lower, StrToULL, Split, ReadFrom, KindNamed, Value, Number;
    NamesDiffer();
    var ts := Split(line[12..], ' ');
    if |ts| >= 6 && |ts| % 2 == 0 {
      FieldsRead(ts);
    } else {
      NothingRead(ts, 0, NOTHING);
    }
  }

  /** So every TCP candidate, active and passive ones too, arrives as simultaneous
      open when the last two fields of its line are left out. */
  lemma TcpTypeLost(c: Candidate, t: AddressText)
    requires WellFormed(c) && Faithful(t) && c.transport != Udp
    ensures var ts := Tokens(c, t);
            && ts[|ts| - 2..] == ["tcptype", TcpTypeName(c.transport)]
            && ParseCandidate(CANDIDATE + Join(ts[..|ts| - 2], ' '), t) == Some(Arriving(c).(transport := TcpSo))
  {
    hide Signed, Decimal, ReadFrom, Join, Pieces, Lower, StrToULL, Value, Number;
    var ts := Tokens(c, t);
    var us := ts[..|ts| - 2];
    var line := CANDIDATE + Join(us, ' ');
    assert line[12..] == Join(us, ' ') && line[..12] == CANDIDATE;
    forall i | 0 <= i < |us| ensures Without(us[i], ' ') {
      TokensHaveNoBlanks(c, t, i);
    }
    SplitJoin(us, ' ');
    JoinNotEmpty(us);
    NoTypeWritten(c, t);
    NamesDiffer();
  }

  /** What is read of the line without its last two fields. */
  lemma NoTypeWritten(c: Candidate, t: AddressText)
    requires WellFormed(c) && c.transport != Udp
    ensures var ts := Tokens(c, t);
            ReadFrom(ts[..|ts| - 2], 0, NOTHING) ==
              Some(Fields(c.foundation, c.component, Some("TCP"), c.priority, t.write(c.addr.ip),
                          WrittenPort(c.addr.port),
                          Some(KindName(c.kind)), None, if WritesBase(c) then Some(t.write(c.base.value.ip)) else None,
                          if WritesBase(c) then WrittenPort(c.addr.port) else 0))
  {
    hide Signed, Decimal, ReadFrom, StrToULL;
    var ts := Tokens(c, t);
    var us := ts[..|ts| - 2];
    ReadTokensBack(c, t);
    FieldsRead(us);
    ReadOneMore(us, 0, NOTHING, "tcptype", TcpTypeName(c.transport));
    assert ts == us + ["tcptype", TcpTypeName(c.transport)];
    var key := "tcptype";
    var typ := ts[..8];
    assert Value(typ, key) == Value(typ[..6], key) == None by { assert typ[6] == "typ"; }
    if WritesBase(c) {
      assert Value(us, key) == Value(us[..10], key) by { assert us[10] == "rport"; }
      assert Value(us[..10], key) == Value(typ, key) by { assert us[..10][8] == "raddr" && us[..10][..8] == typ; }
    } else {
      assert us == typ;
    }
  }

  // Streams ------------------------------------------------------------------

  /** The lines of a stream: what is not ICE, then the credentials, then the
      candidates of every component in order. */
  datatype StreamInfo = StreamInfo(preamble: seq<string>, ufrag: string, pwd: string, components: seq<seq<Candidate>>)

  function Flat(components: seq<seq<Candidate>>): seq<Candidate> {
    if components == [] then [] else Flat(components[..|components| - 1]) + components[|components| - 1]
  }

  function CandidateLines(cs: seq<Candidate>, t: AddressText): (r: seq<string>)
    ensures |r| == |cs| && forall i :: 0 <= i < |cs| ==> r[i] == CandidateLine(cs[i], t)
  {
    seq(|cs|, i requires 0 <= i < |cs| => CandidateLine(cs[i], t))
  }

  function StreamLines(s: StreamInfo, t: AddressText): seq<string> {
    s.preamble + [UFRAG + s.ufrag, PWD + s.pwd] + CandidateLines(Flat(s.components), t)
  }

  /** Every line followed by a line feed. */
  function Terminated(lines: seq<string>): string {
    if lines == [] then [] else Terminated(lines[..|lines| - 1]) + lines[|lines| - 1] + "\n"
  }

  /** The lines before the candidates. */
  lemma HeadLines(s: StreamInfo, t: AddressText)
    ensures var head := s.preamble + [UFRAG + s.ufrag, PWD + s.pwd];
            && Terminated(s.preamble) + UFRAG + s.ufrag + "\n" + PWD + s.pwd + "\n" == Terminated(head)
            && CandidateLines([], t) == [] && head + [] == head
  {
    var head := s.preamble + [UFRAG + s.ufrag, PWD + s.pwd];
    assert head[..|head| - 1] == s.preamble + [UFRAG + s.ufrag] && head[..|head| - 1][..|s.preamble|] == s.preamble;
    assert Terminated(head[..|head| - 1]) == Terminated(s.preamble) + (UFRAG + s.ufrag) + "\n";
  }

  /** The inner loop of _generate_stream_sdp: the candidates of one component. */
  method GenerateComponent(sdp0: string, component: seq<Candidate>, t: AddressText, ghost head: seq<string>,
                           ghost done: seq<Candidate>)
    returns (sdp: string)
    requires sdp0 == Terminated(head + CandidateLines(done, t))
    ensures sdp == Terminated(head + CandidateLines(done + component, t))
  {
    hide CandidateLine, Terminated;
    sdp := sdp0;
    assert done + component[..0] == done;
    for j := 0 to |component|
      invariant sdp == Terminated(head + CandidateLines(done + component[..j], t))
    {
      TerminatedMore(head, done + component[..j], component[j], t);
      sdp := sdp + CandidateLine(component[j], t) + "\n";
      assert done + component[..j] + [component[j]] == done + component[..j + 1];
    }
    assert component[..|component|] == component;
  }

  /** _generate_stream_sdp */
  method GenerateStream(s: StreamInfo, t: AddressText) returns (sdp: string)
    ensures sdp == Terminated(StreamLines(s, t))
  {
    hide CandidateLine, Terminated, CandidateLines;
    sdp := Terminated(s.preamble) + UFRAG + s.ufrag + "\n" + PWD + s.pwd + "\n";
    ghost var head := s.preamble + [UFRAG + s.ufrag, PWD + s.pwd];
    HeadLines(s, t);
    for i := 0 to |s.components|
      invariant sdp == Terminated(head + CandidateLines(Flat(s.components[..i]), t))
    {
      sdp := GenerateComponent(sdp, s.components[i], t, head, Flat(s.components[..i]));
      assert s.components[..i + 1][..i] == s.components[..i];
    }
    assert s.components[..|s.components|] == s.components;
  }

  lemma TerminatedMore(head: seq<string>, done: seq<Candidate>, c: Candidate, t: AddressText)
    ensures Terminated(head + CandidateLines(done + [c], t)) == Terminated(head + CandidateLines(done,
              t)) + CandidateLine(c, t) + "\n"
  {
    hide CandidateLine;
    var lines := head + CandidateLines(done + [c], t);
    assert lines[..|lines| - 1] == head + CandidateLines(done, t);
  }

  /** What has been read of a stream; `failed` once a candidate was malformed, in
      which case all candidates are dropped and reading stops. */
  datatype Reading = Reading(ufrag: Option<string>, pwd: Option<string>, candidates: seq<Candidate>, failed: bool)

  function ReadLine(r: Reading, line: string, t: AddressText): Reading {
    if r.failed then r
    else if HasPrefix(line, UFRAG) then r.(ufrag := Some(line[12..]))
    else if HasPrefix(line, PWD) then r.(pwd := Some(line[10..]))
    else if HasPrefix(line, CANDIDATE) then
      var c := ParseCandidate(line, t);
      if c.None? then r.(candidates := [], failed := true) else r.(candidates := [c.value] + r.candidates)
    else r
  }

  function ReadLines(r: Reading, lines: seq<string>, t: AddressText): Reading {
    if lines == [] then r else ReadLine(ReadLines(r, lines[..|lines| - 1], t), lines[|lines| - 1], t)
  }

  const UNREAD := Reading(None, None, [], false)

  /** nice_agent_parse_remote_stream_sdp */
  method ParseStream(sdp: string, t: AddressText) returns (r: Reading)
    ensures r == ReadLines(UNREAD, Split(sdp, '\n'), t)
  {
    hide ParseCandidate, Pieces;
    var lines := Split(sdp, '\n');
    r := UNREAD;
    for i := 0 to |lines|
      invariant r == ReadLines(UNREAD, lines[..i], t) && !r.failed
    {
      ghost var before := r;
      assert lines[..i + 1][..i] == lines[..i];
      var line := lines[i];
      if HasPrefix(line, UFRAG) {
        r := r.(ufrag := Some(line[12..]));
      } else if HasPrefix(line, PWD) {
        r := r.(pwd := Some(line[10..]));
      } else if HasPrefix(line, CANDIDATE) {
        var c := ParseCandidate(line, t);
        if c.None? {
          r := r.(candidates := [], failed := true);
          FailedStays(r, lines, i + 1, t);
          return;
        }
        r := r.(candidates := [c.value] + r.candidates);
      }
    }
    assert lines[..|lines|] == lines;
  }

  /** Once it has failed, reading changes nothing. */
  lemma {:induction false} FailedStays(r: Reading, lines: seq<string>, n: nat, t: AddressText)
    requires n <= |lines| && r == ReadLines(UNREAD, lines[..n], t) && r.failed
    ensures ReadLines(UNREAD, lines, t) == r
    decreases |lines| - n
  {
    if n == |lines| {
      assert lines[..n] == lines;
    } else {
      assert lines[..n + 1][..n] == lines[..n];
      FailedStays(r, lines, n + 1, t);
    }
  }

  // A stream there and back --------------------------------------------------

  function Reversed(cs: seq<Candidate>): seq<Candidate> {
    if cs == [] then [] else [Arriving(cs[|cs| - 1])] + Reversed(cs[..|cs| - 1])
  }

  /** A line that is none of those that are read. */
  predicate Foreign(line: string) {
    !HasPrefix(line, UFRAG) && !HasPrefix(line, PWD) && !HasPrefix(line, CANDIDATE)
  }

  lemma {:induction false} TerminatedIsJoined(lines: seq<string>)
    ensures Terminated(lines) == Join(lines + [""], '\n')
  {
    if lines == [] {
      assert lines + [""] == [""];
    } else {
      var n := |lines| - 1;
      TerminatedIsJoined(lines[..n]);
      assert lines[..n] + [lines[n]] == lines;
      JoinLast(lines[..n], lines[n]);
      assert lines[..n] + [lines[n], ""] == lines + [""];
    }
  }

  lemma {:induction false} JoinLast(ls: seq<string>, x: string)
    ensures Join(ls + [x, ""], '\n') == Join(ls + [""], '\n') + x + "\n"
  {
    if ls == [] {
      assert ls + [x, ""] == [x, ""] && ls + [""] == [""];
      assert [x, ""][1..] == [""];
      assert Join([""], '\n') == "";
    } else {
      JoinLast(ls[1..], x);
      assert (ls + [x, ""])[1..] == ls[1..] + [x, ""] && (ls + [""])[1..] == ls[1..] + [""];
    }
  }

  /** Lines without line feeds come back from the text they were written to. */
  lemma LinesBack(lines: seq<string>)
    requires lines != [] && forall i :: 0 <= i < |lines| ==> Without(lines[i], '\n')
    ensures Split(Terminated(lines), '\n') == lines + [""]
  {
    hide Join, Pieces, Terminated, Without;
    TerminatedIsJoined(lines);
    TerminatedNotEmpty(lines);
    assert Without("", '\n') by { EmptyWithout(); }
    SplitJoin(lines + [""], '\n');
  }

  lemma EmptyWithout()
    ensures Without("", '\n')
  {
  }

  lemma TerminatedNotEmpty(lines: seq<string>)
    requires lines != []
    ensures Terminated(lines) != []
  {
  }

  lemma {:induction false} ReadForeign(r: Reading, lines: seq<string>, t: AddressText)
    requires forall i :: 0 <= i < |lines| ==> Foreign(lines[i])
    ensures ReadLines(r, lines, t) == r
  {
    if lines != [] {
      ReadForeign(r, lines[..|lines| - 1], t);
    }
  }

  lemma {:induction false} ReadLinesConcat(r: Reading, a: seq<string>, b: seq<string>, t: AddressText)
    ensures ReadLines(r, a + b, t) == ReadLines(ReadLines(r, a, t), b, t)
  {
    hide ReadLine;
    if b == [] {
      assert a + b == a;
    } else {
      assert (a + b)[..|a + b| - 1] == a + b[..|b| - 1];
      ReadLinesConcat(r, a, b[..|b| - 1], t);
    }
  }

  lemma {:induction false} ReadCandidates(r: Reading, cs: seq<Candidate>, t: AddressText)
    requires Faithful(t) && !r.failed && forall i :: 0 <= i < |cs| ==> WellFormed(cs[i])
    ensures ReadLines(r, CandidateLines(cs, t), t) == r.(candidates := Reversed(cs) + r.candidates)
  {
    hide ParseCandidate, CandidateLine, Faithful, WellFormed;
    var lines := CandidateLines(cs, t);
    if cs == [] {
      assert Reversed(cs) + r.candidates == r.candidates;
    } else {
      var n := |cs| - 1;
      ReadCandidates(r, cs[..n], t);
      assert lines[..n] == CandidateLines(cs[..n], t);
      CandidateRoundTrip(cs[n], t);
      CandidateLineStarts(cs[n], t);
      assert [Arriving(cs[n])] + (Reversed(cs[..n]) + r.candidates) == Reversed(cs) + r.candidates;
    }
  }

  lemma CandidateLineStarts(c: Candidate, t: AddressText)
    ensures HasPrefix(CandidateLine(c, t), CANDIDATE)
    ensures !HasPrefix(CandidateLine(c, t), UFRAG) && !HasPrefix(CandidateLine(c, t), PWD)
  {
    hide Join, Tokens;
    var line := CandidateLine(c, t);
    assert line[..12] == CANDIDATE && line[2] == 'c';
    assert UFRAG[2] == 'i' && PWD[2] == 'i';
  }

  lemma {:induction false} JoinWithout(ts: seq<string>)
    requires ts != [] && forall i :: 0 <= i < |ts| ==> Without(ts[i], '\n')
    ensures Without(Join(ts, ' '), '\n')
  {
    if |ts| > 1 {
      JoinWithout(ts[1..]);
    }
  }

  lemma CandidateLineIsLine(c: Candidate, t: AddressText)
    requires WellFormed(c) && Faithful(t)
    ensures Without(CandidateLine(c, t), '\n')
  {
    hide Join, Tokens;
    forall i | 0 <= i < |Tokens(c, t)| ensures Without(Tokens(c, t)[i], '\n') {
      TokensHaveNoBlanks(c, t, i);
    }
    JoinWithout(Tokens(c, t));
  }

  /** What is written of a stream besides ICE attributes. */
  function NonIce(name: Option<string>, rtp: Address, rtcpPort: nat, t: AddressText): seq<string> {
    ["m=" + (if name.Some? then name.value else "-") + " " + Decimal(rtp.port) + " ICE/SDP",
     "c=IN IP4 " + t.write(rtp.ip)]
    + (if rtcpPort != 0 then ["a=rtcp:" + Decimal(rtcpPort)] else [])
  }

  /** None of it is mistaken for an ICE attribute. */
  lemma NonIceIsForeign(name: Option<string>, rtp: Address, rtcpPort: nat, t: AddressText, i: nat)
    requires i < |NonIce(name, rtp, rtcpPort, t)|
    ensures Foreign(NonIce(name, rtp, rtcpPort, t)[i])
  {
    hide Decimal;
    var line := NonIce(name, rtp, rtcpPort, t)[i];
    assert UFRAG[0] == PWD[0] == CANDIDATE[0] == 'a' && UFRAG[2] == PWD[2] == 'i' && CANDIDATE[2] == 'c';
    assert line[0] == (if i == 0 then 'm' else if i == 1 then 'c' else 'a');
    if i == 2 {
      assert line[2] == 'r';
    }
  }

  /** A stream that may be written: nothing in it breaks a line. */
  ghost predicate Writable(s: StreamInfo) {
    && Without(s.ufrag, '\n') && Without(s.pwd, '\n')
    && (forall i :: 0 <= i < |s.preamble| ==> Without(s.preamble[i], '\n') && Foreign(s.preamble[i]))
    && forall i :: 0 <= i < |Flat(s.components)| ==> WellFormed(Flat(s.components)[i])
  }

  /** Reading a written stream recovers user fragment and password and every
      candidate, the last one first. */
  lemma StreamRoundTrip(s: StreamInfo, t: AddressText)
    requires Writable(s) && Faithful(t)
    ensures ReadLines(UNREAD, Split(Terminated(StreamLines(s, t)), '\n'), t) ==
            Reading(Some(s.ufrag), Some(s.pwd), Reversed(Flat(s.components)), false)
  {
    hide Split, Terminated, ReadLines, CandidateLine, WellFormed, Faithful, Flat, Foreign;
    var cs := Flat(s.components);
    var lines := StreamLines(s, t);
    forall i | 0 <= i < |lines| ensures Without(lines[i], '\n') {
      LineOfStream(s, t, i);
    }
    LinesBack(lines);
    var credentials := [UFRAG + s.ufrag, PWD + s.pwd];
    ReadLinesConcat(UNREAD, lines, [""], t);
    ReadLinesConcat(UNREAD, s.preamble + credentials, CandidateLines(cs, t), t);
    ReadLinesConcat(UNREAD, s.preamble, credentials, t);
    ReadForeign(UNREAD, s.preamble, t);
    ReadCredentials(s.ufrag, s.pwd, t);
    var r := Reading(Some(s.ufrag), Some(s.pwd), [], false);
    ReadCandidates(r, cs, t);
    assert Reversed(cs) + [] == Reversed(cs);
    EmptyIsForeign();
    ReadForeign(r.(candidates := Reversed(cs)), [""], t);
  }

  lemma EmptyIsForeign()
    ensures Foreign("")
  {
  }

  lemma LineOfStream(s: StreamInfo, t: AddressText, i: nat)
    requires Writable(s) && Faithful(t) && i < |StreamLines(s, t)|
    ensures Without(StreamLines(s, t)[i], '\n')
  {
    hide CandidateLine, WellFormed, Faithful, Flat, Foreign;
    var n := |s.preamble|;
    var cs := Flat(s.components);
    if i < n {
      assert StreamLines(s, t)[i] == s.preamble[i];
    } else if i < n + 2 {
      assert StreamLines(s, t)[i] == [UFRAG + s.ufrag, PWD + s.pwd][i - n];
    } else {
      assert StreamLines(s, t)[i] == CandidateLine(cs[i - n - 2], t);
      CandidateLineIsLine(cs[i - n - 2], t);
    }
  }

  lemma ReadCredentials(ufrag: string, pwd: string, t: AddressText)
    ensures ReadLines(UNREAD, [UFRAG + ufrag, PWD + pwd], t) == Reading(Some(ufrag), Some(pwd), [], false)
  {
    hide ParseCandidate;
    var u, p := UFRAG + ufrag, PWD + pwd;
    assert u[..12] == UFRAG && u[12..] == ufrag && p[..10] == PWD && p[10..] == pwd;
    assert !HasPrefix(p, UFRAG) by { assert UFRAG[6] == 'u' && p[6] == 'p'; }
    var none: seq<string> := [];
    assert ReadLines(UNREAD, none, t) == UNREAD;
    assert [u, p][..1] == [u] && [u][..0] == none;
    assert ReadLines(UNREAD, [u], t) == UNREAD.(ufrag := Some(ufrag));
  }
}
