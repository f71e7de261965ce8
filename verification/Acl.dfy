/** Packet parsing and ACL evaluation: crates/core/src/lib.rs. */
module Acl {
  import opened Wrappers
  import opened Bytes

  type Ip = U32

  datatype PacketInfo = PacketInfo(srcIp: Ip, dstIp: Ip, protocol: Byte, srcPort: U16, dstPort: U16)

  datatype AclRule = AclRule(
    priority: U32, action: string, srcIp: string, dstIp: string, protocol: string, srcPort: U16, dstPort: U16)

  /** How the standard library reads an address; not modelled. */
  type AddressParser = string -> Option<Ip>

  function Field16(packet: seq<Byte>, at: nat): U16
    requires at + 2 <= |packet|
  {
    Pow256Values();
    BeValue(packet[at..at + 2])
  }

  function Field32(packet: seq<Byte>, at: nat): U32
    requires at + 4 <= |packet|
  {
    Pow256Values();
    BeValue(packet[at..at + 4])
  }

  /** `PacketInfo::parse`; the ports are read behind a header as long as it claims to be, even below 20. */
  function Parse(packet: seq<Byte>): Option<PacketInfo> {
    if |packet| < 20 || packet[0] / 16 != 4 then None
    else
      var protocol := packet[9];
      var ihl := packet[0] % 16 * 4;
      var hasPorts := |packet| >= 24 && (protocol == 6 || protocol == 17) && |packet| >= ihl + 4;
      Some(PacketInfo(
             Field32(packet, 12), Field32(packet, 16), protocol,
             if hasPorts then Field16(packet, ihl) else 0,
             if hasPorts then Field16(packet, ihl + 2) else 0))
  }

  /** An IPv4 header as section 3.1 of RFC 791 lays it out, and the payload behind it; the fields the rules do not
      look at are given as octets. */
  datatype Ipv4Packet = Ipv4Packet(
    serviceToTtl: seq<Byte>, protocol: Byte, checksum: seq<Byte>, srcIp: Ip, dstIp: Ip,
    options: seq<Byte>, payload: seq<Byte>)
  {
    ghost predicate Valid() {
      |serviceToTtl| == 8 && |checksum| == 2 && |options| % 4 == 0 && |options| <= 40
    }

    function Printed(): seq<Byte>
      requires Valid()
    {
      [64 + 5 + |options| / 4] + serviceToTtl + [protocol] + checksum + BeBytes(srcIp, 4) + BeBytes(dstIp, 4)
      + options + payload
    }
  }

  lemma PrintedSlices(p: Ipv4Packet)
    requires p.Valid()
    ensures var s, h := p.Printed(), 20 + |p.options|;
            && |s| == h + |p.payload| && s[0] == 69 + |p.options| / 4 && s[9] == p.protocol
            && s[12..16] == BeBytes(p.srcIp, 4) && s[16..20] == BeBytes(p.dstIp, 4)
            && s[h..] == p.payload
  {
  }

  /** Parsing reads back what a printed header says, with any options, and takes the first four octets of a TCP or UDP
      payload as the ports. */
  lemma ParseAfterPrint(p: Ipv4Packet)
    requires p.Valid()
    ensures var ported := (p.protocol == 6 || p.protocol == 17) && |p.payload| >= 4;
            Parse(p.Printed()) == Some(PacketInfo(
                                         p.srcIp, p.dstIp, p.protocol,
                                         if ported then Field16(p.payload, 0) else 0,
                                         if ported then Field16(p.payload, 2) else 0))
  {
    PrintedSlices(p);
    Pow256Values();
    BeValueOfBytes(p.srcIp, 4);
    BeValueOfBytes(p.dstIp, 4);
    var s, h := p.Printed(), 20 + |p.options|;
    assert s[0] % 16 * 4 == h;
    if |p.payload| >= 4 {
      assert s[h..h + 2] == p.payload[0..2] && s[h + 2..h + 4] == p.payload[2..4];
    }
  }

  /** An empty field, or one that does not parse, matches any address. */
  predicate AddressMatches(parse: AddressParser, field: string, ip: Ip) {
    field == "" || parse(field).None? || parse(field).value == ip
  }

  predicate ProtocolMatches(field: string, protocol: Byte) {
    || field == ""
    || (field == "tcp" && protocol == 6)
    || (field == "udp" && protocol == 17)
    || (field == "icmp" && protocol == 1)
  }

  predicate Matches(parse: AddressParser, r: AclRule, pkt: PacketInfo) {
    && AddressMatches(parse, r.srcIp, pkt.srcIp)
    && AddressMatches(parse, r.dstIp, pkt.dstIp)
    && ProtocolMatches(r.protocol, pkt.protocol)
    && (r.srcPort != 0 ==> pkt.srcPort == r.srcPort)
    && (r.dstPort != 0 ==> pkt.dstPort == r.dstPort)
  }

  // ── The stable sort of the standard library ──

  function Insert(r: AclRule, s: seq<AclRule>): seq<AclRule> {
    if s == [] || r.priority <= s[0].priority then [r] + s else [s[0]] + Insert(r, s[1..])
  }

  function SortByPriority(rules: seq<AclRule>): seq<AclRule> {
    if rules == [] then [] else Insert(rules[0], SortByPriority(rules[1..]))
  }

  predicate Sorted(s: seq<AclRule>) {
    |s| >= 2 ==> s[0].priority <= s[1].priority && Sorted(s[1..])
  }

  /** The rules of one priority, in list order. */
  function OfPriority(rules: seq<AclRule>, p: U32): seq<AclRule> {
    if rules == [] then []
    else (if rules[0].priority == p then [rules[0]] else []) + OfPriority(rules[1..], p)
  }

  lemma {:induction false} InsertSorts(r: AclRule, s: seq<AclRule>, p: U32)
    requires Sorted(s)
    ensures Sorted(Insert(r, s)) && Insert(r, s) != []
    ensures Insert(r, s)[0] == r || (s != [] && Insert(r, s)[0] == s[0])
    ensures OfPriority(Insert(r, s), p) == OfPriority([r] + s, p)
  {
    assert ([r] + s)[1..] == s;
    if s != [] && r.priority > s[0].priority {
      InsertSorts(r, s[1..], p);
      assert Insert(r, s)[1..] == Insert(r, s[1..]);
      assert ([r] + s[1..])[1..] == s[1..];
    }
  }

  /** The sort is one: ordered, and for each priority the same rules in the same order. */
  lemma {:induction false} SortIsStable(rules: seq<AclRule>, p: U32)
    ensures Sorted(SortByPriority(rules))
    ensures OfPriority(SortByPriority(rules), p) == OfPriority(rules, p)
  {
    if rules == [] {
    } else {
      SortIsStable(rules[1..], p);
      InsertSorts(rules[0], SortByPriority(rules[1..]), p);
      assert ([rules[0]] + SortByPriority(rules[1..]))[1..] == SortByPriority(rules[1..]);
    }
  }

  // ── Evaluation ──

  function FirstMatch(parse: AddressParser, rules: seq<AclRule>, pkt: PacketInfo): Option<AclRule> {
    if rules == [] then None
    else if Matches(parse, rules[0], pkt) then Some(rules[0])
    else FirstMatch(parse, rules[1..], pkt)
  }

  function ActionOf(r: Option<AclRule>): string {
    if r.Some? && r.value.action == "deny" then "deny" else "allow"
  }

  /** Sort, then scan. */
  method EvaluateAcls(parse: AddressParser, rules: seq<AclRule>, packet: seq<Byte>) returns (verdict: string)
    ensures verdict == Verdict(parse, rules, packet)
  {
    var pktInfo := Parse(packet);
    if pktInfo.None? {
      return "allow";
    }
    var sorted := SortByPriority(rules);
    for i := 0 to |sorted|
      invariant FirstMatch(parse, sorted, pktInfo.value) == FirstMatch(parse, sorted[i..], pktInfo.value)
    {
      assert sorted[i..][0] == sorted[i] && sorted[i..][1..] == sorted[i + 1..];
      if Matches(parse, sorted[i], pktInfo.value) {
        return if sorted[i].action == "deny" then "deny" else "allow";
      }
    }
    verdict := "allow";
  }

  function Verdict(parse: AddressParser, rules: seq<AclRule>, packet: seq<Byte>): string {
    match Parse(packet)
    case None => "allow"
    case Some(pkt) => ActionOf(FirstMatch(parse, SortByPriority(rules), pkt))
  }

  // ── The declarative meaning ──

  /** Rule i matches, and is least in (priority, list position) among those that do. */
  ghost predicate Wins(parse: AddressParser, rules: seq<AclRule>, pkt: PacketInfo, i: nat) {
    && i < |rules| && Matches(parse, rules[i], pkt)
    && forall j: nat | j < |rules| && Matches(parse, rules[j], pkt) ::
         rules[i].priority < rules[j].priority || (rules[i].priority == rules[j].priority && i <= j)
  }

  lemma {:induction false} FirstMatchInsert(parse: AddressParser, r: AclRule, s: seq<AclRule>, pkt: PacketInfo)
    requires Sorted(s)
    ensures var m := FirstMatch(parse, s, pkt);
            FirstMatch(parse, Insert(r, s), pkt) ==
              if Matches(parse, r, pkt) && (m.None? || r.priority <= m.value.priority) then Some(r) else m
  {
    if s == [] || r.priority <= s[0].priority {
      assert ([r] + s)[1..] == s;
      FirstMatchAbove(parse, s, pkt);
    } else {
      FirstMatchInsert(parse, r, s[1..], pkt);
      assert Insert(r, s)[1..] == Insert(r, s[1..]);
    }
  }

  lemma {:induction false} FirstMatchAbove(parse: AddressParser, s: seq<AclRule>, pkt: PacketInfo)
    requires Sorted(s)
    ensures var m := FirstMatch(parse, s, pkt); m.Some? ==> s != [] && s[0].priority <= m.value.priority
  {
    if s == [] {
    } else {
      FirstMatchAbove(parse, s[1..], pkt);
    }
  }

  /** The scan of the sorted rules finds the winner, and finds nothing exactly when no rule matches. */
  lemma {:induction false} ScanFindsWinner(parse: AddressParser, rules: seq<AclRule>, pkt: PacketInfo)
    ensures var m := FirstMatch(parse, SortByPriority(rules), pkt);
            && (m.None? <==> forall r <- rules :: !Matches(parse, r, pkt))
            && (m.Some? ==> exists i: nat :: Wins(parse, rules, pkt, i) && rules[i] == m.value)
  {
    if rules == [] {
    } else {
      var r, rest := rules[0], rules[1..];
      ScanFindsWinner(parse, rest, pkt);
      SortIsStable(rest, 0);
      FirstMatchInsert(parse, r, SortByPriority(rest), pkt);
      var m, m' := FirstMatch(parse, SortByPriority(rules), pkt), FirstMatch(parse, SortByPriority(rest), pkt);
      assert forall x :: x in rules <==> x == r || x in rest;
      if m'.Some? {
        var i: nat :| Wins(parse, rest, pkt, i) && rest[i] == m'.value;
        WinnerAmongMore(parse, rules, pkt, i);
      } else if Matches(parse, r, pkt) {
        forall j: nat | 0 < j < |rules|
          ensures !Matches(parse, rules[j], pkt)
        {
          assert rules[j] == rest[j - 1] && rest[j - 1] in rest;
        }
        assert Wins(parse, rules, pkt, 0);
      }
    }
  }

  lemma WinnerAmongMore(parse: AddressParser, rules: seq<AclRule>, pkt: PacketInfo, i: nat)
    requires rules != [] && Wins(parse, rules[1..], pkt, i)
    ensures if Matches(parse, rules[0], pkt) && rules[0].priority <= rules[1..][i].priority
            then Wins(parse, rules, pkt, 0) else Wins(parse, rules, pkt, i + 1) && rules[i + 1] == rules[1..][i]
  {
    forall j: nat | 0 < j < |rules| && Matches(parse, rules[j], pkt)
      ensures var w := rules[1..][i];
              w.priority < rules[j].priority || (w.priority == rules[j].priority && i + 1 <= j)
    {
      assert rules[1..][j - 1] == rules[j];
    }
  }

  /** The verdict of a packet that parses: the action of the matching rule least in (priority, list position), and
      "allow" when no rule matches. */
  lemma VerdictMeans(parse: AddressParser, rules: seq<AclRule>, packet: seq<Byte>)
    ensures Parse(packet).None? ==> Verdict(parse, rules, packet) == "allow"
    ensures Parse(packet).Some? && (forall r <- rules :: !Matches(parse, r, Parse(packet).value)) ==>
              Verdict(parse, rules, packet) == "allow"
    ensures Parse(packet).Some? ==>
              forall i: nat | Wins(parse, rules, Parse(packet).value, i) ::
                Verdict(parse, rules, packet) == if rules[i].action == "deny" then "deny" else "allow"
  {
    if Parse(packet).Some? {
      var pkt := Parse(packet).value;
      ScanFindsWinner(parse, rules, pkt);
      forall i: nat | Wins(parse, rules, pkt, i)
        ensures Verdict(parse, rules, packet) == if rules[i].action == "deny" then "deny" else "allow"
      {
        assert rules[i] in rules;
        var k: nat :| Wins(parse, rules, pkt, k) && Some(rules[k]) == FirstMatch(parse, SortByPriority(rules), pkt);
        assert i == k;
      }
    }
  }

  // ── What the verdict depends on ──

  /** The same rules of each priority in the same order: a permutation that keeps equal priorities in order. */
  ghost predicate SameUpToPriority(a: seq<AclRule>, b: seq<AclRule>) {
    forall p: U32 :: OfPriority(a, p) == OfPriority(b, p)
  }

  lemma {:induction false} NoneBelowHead(s: seq<AclRule>, p: U32)
    requires Sorted(s) && (s != [] ==> p < s[0].priority)
    ensures OfPriority(s, p) == []
  {
    if s == [] {
    } else {
      NoneBelowHead(s[1..], p);
    }
  }

  /** The scan of the sorted rules, priority by priority. */
  lemma {:induction false} ScanByPriority(parse: AddressParser, s: seq<AclRule>, pkt: PacketInfo, p: U32)
    requires Sorted(s)
    ensures var m := FirstMatch(parse, s, pkt);
            && (m.None? || p < m.value.priority ==> FirstMatch(parse, OfPriority(s, p), pkt) == None)
            && (m.Some? && p == m.value.priority ==> FirstMatch(parse, OfPriority(s, p), pkt) == m)
  {
    if s == [] {
    } else {
      ScanByPriority(parse, s[1..], pkt, p);
      FirstMatchAbove(parse, s, pkt);
      if p < s[0].priority {
        NoneBelowHead(s, p);
      }
      var rest := OfPriority(s[1..], p);
      assert ([s[0]] + rest)[1..] == rest && [] + rest == rest;
    }
  }

  lemma SameScan(parse: AddressParser, a: seq<AclRule>, b: seq<AclRule>, pkt: PacketInfo)
    requires Sorted(a) && Sorted(b) && SameUpToPriority(a, b)
    ensures FirstMatch(parse, a, pkt) == FirstMatch(parse, b, pkt)
  {
    var m, n := FirstMatch(parse, a, pkt), FirstMatch(parse, b, pkt);
    if m.Some? {
      ScanByPriority(parse, a, pkt, m.value.priority);
      ScanByPriority(parse, b, pkt, m.value.priority);
    }
    if n.Some? {
      ScanByPriority(parse, a, pkt, n.value.priority);
      ScanByPriority(parse, b, pkt, n.value.priority);
    }
  }

  /** Reordering rules of different priorities never changes a verdict. */
  lemma VerdictIgnoresOrder(parse: AddressParser, a: seq<AclRule>, b: seq<AclRule>, packet: seq<Byte>)
    requires SameUpToPriority(a, b)
    ensures Verdict(parse, a, packet) == Verdict(parse, b, packet)
  {
    if Parse(packet).Some? {
      forall p: U32
        ensures OfPriority(SortByPriority(a), p) == OfPriority(SortByPriority(b), p)
      {
        SortIsStable(a, p);
        SortIsStable(b, p);
      }
      SortIsStable(a, 0);
      SortIsStable(b, 0);
      SameScan(parse, SortByPriority(a), SortByPriority(b), Parse(packet).value);
    }
  }

  /** Only the first 64 octets and the length of a packet matter. */
  lemma VerdictReadsHeader(parse: AddressParser, rules: seq<AclRule>, p: seq<Byte>, q: seq<Byte>)
    requires |p| == |q| && forall i: nat | i < 64 && i < |p| :: p[i] == q[i]
    ensures Verdict(parse, rules, p) == Verdict(parse, rules, q)
  {
    if |p| >= 20 {
      SameSlice(p, q, 12, 4);
      SameSlice(p, q, 16, 4);
      var ihl := p[0] % 16 * 4;
      if |p| >= ihl + 4 {
        SameSlice(p, q, ihl, 2);
        SameSlice(p, q, ihl + 2, 2);
      }
      assert Parse(p) == Parse(q);
    }
  }

  lemma SameSlice(p: seq<Byte>, q: seq<Byte>, at: nat, n: nat)
    requires |p| == |q| && at + n <= |p| && at + n <= 64
    requires forall i: nat | i < 64 && i < |p| :: p[i] == q[i]
    ensures p[at..at + n] == q[at..at + n]
  {
  }
}
