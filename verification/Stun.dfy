/** STUN messages and attributes: the server of services/stun/src/main.rs and the client of crates/nat/src/stun.rs,
    after RFC 5389 sections 6, 15 and 15.2. */
module Stun {
  import opened Wrappers
  import opened Bytes

  const MAGIC_COOKIE: U32 := 0x2112_A442
  const COOKIE_HIGH: U16 := 0x2112
  const BINDING_REQUEST: U16 := 0x0001
  const BINDING_SUCCESS: U16 := 0x0101
  const XOR_MAPPED_ADDRESS: U16 := 0x0020
  const HEADER_LEN: nat := 20
  const IPV4_FAMILY: Byte := 0x01
  const IPV6_FAMILY: Byte := 0x02
  const DATAGRAM_BUFFER: nat := 512

  type TxId = s: seq<Byte> | |s| == 12 witness [0, 0, 0, 0, 0, 0, 0, 0, 0, 0, 0, 0]
  type Ipv6Octets = s: seq<Byte> | |s| == 16 witness [0, 0, 0, 0, 0, 0, 0, 0, 0, 0, 0, 0, 0, 0, 0, 0]

  datatype SocketAddr = V4(ip: U32, port: U16) | V6(octets: Ipv6Octets, port: U16)

  datatype StunError = UnexpectedResponse(msgType: U16) | TransactionMismatch | MissingMappedAddress

  // ── Obfuscation ──

  function XorPort(port: U16): U16 {
    Pow2Values();
    XorBound(port, COOKIE_HIGH, 16);
    Xor(port, COOKIE_HIGH)
  }

  function XorIp(ip: U32): U32 {
    Pow2Values();
    XorBound(ip, MAGIC_COOKIE, 32);
    Xor(ip, MAGIC_COOKIE)
  }

  function XorByte(a: Byte, b: Byte): Byte {
    Pow2Bytes();
    XorBound(a, b, 8);
    Xor(a, b)
  }

  /** What the server does to an IPv6 address: the cookie goes over the first four octets only. */
  function XorFirstFour(octets: Ipv6Octets): Ipv6Octets {
    var mc := BeBytes(MAGIC_COOKIE, 4);
    seq(4, i requires 0 <= i < 4 => XorByte(octets[i], mc[i])) + octets[4..]
  }

  lemma XorTwice(ip: U32, port: U16)
    ensures XorIp(XorIp(ip)) == ip && XorPort(XorPort(port)) == port
  {
    XorInvolutive(ip, MAGIC_COOKIE);
    XorInvolutive(port, COOKIE_HIGH);
  }

  // ── The server ──

  method BuildXorMappedV4(ip: U32, port: U16) returns (attr: seq<Byte>)
    ensures attr == MappedAttribute(ip, port)
  {
    var xPort := XorPort(port);
    var xAddr := XorIp(ip);
    attr := [];
    attr := attr + BeBytes(XOR_MAPPED_ADDRESS, 2);
    attr := attr + BeBytes(8, 2);
    attr := attr + [0x00];
    attr := attr + [IPV4_FAMILY];
    attr := attr + BeBytes(xPort, 2);
    attr := attr + BeBytes(xAddr, 4);
    Assembled(BeBytes(XOR_MAPPED_ADDRESS, 2), BeBytes(8, 2), 0x00, IPV4_FAMILY, BeBytes(xPort, 2), BeBytes(xAddr, 4));
    assert |MappedTlv(ip, port).value| == 8;
  }

  lemma Assembled(a: seq<Byte>, b: seq<Byte>, c: Byte, d: Byte, e: seq<Byte>, f: seq<Byte>)
    ensures [] + a + b + [c] + [d] + e + f == a + b + ([c, d] + e + f) + []
  {
  }

  /** Only the first four octets are obfuscated. */
  method BuildXorMappedV6(octets: Ipv6Octets, port: U16) returns (attr: seq<Byte>)
    ensures attr == PrintTlv(MappedTlvV6(octets, port))
  {
    var xPort := XorPort(port);
    var mc := BeBytes(MAGIC_COOKIE, 4);
    var xAddr: seq<Byte> := [];
    for i := 0 to 4
      invariant |xAddr| == i && forall j: nat | j < i :: xAddr[j] == XorByte(octets[j], mc[j])
    {
      xAddr := xAddr + [XorByte(octets[i], mc[i])];
    }
    xAddr := xAddr + octets[4..];
    assert xAddr == XorFirstFour(octets);
    attr := [];
    attr := attr + BeBytes(XOR_MAPPED_ADDRESS, 2);
    attr := attr + BeBytes(20, 2);
    attr := attr + [0x00];
    attr := attr + [IPV6_FAMILY];
    attr := attr + BeBytes(xPort, 2);
    attr := attr + xAddr;
    Assembled(BeBytes(XOR_MAPPED_ADDRESS, 2), BeBytes(20, 2), 0x00, IPV6_FAMILY, BeBytes(xPort, 2), xAddr);
    assert |MappedTlvV6(octets, port).value| == 20;
  }

  lemma Pow2Bytes()
    ensures Pow2(8) == 0x100
  {
    assert Pow2(4) == 2 * Pow2(3) && Pow2(3) == 2 * Pow2(2) && Pow2(2) == 4;
    Pow2Add(4, 4);
  }

  /** Is this a Binding Request with the magic cookie? */
  predicate IsBindingRequest(data: seq<Byte>) {
    |data| >= HEADER_LEN && BeValue(data[0..2]) == BINDING_REQUEST && BeValue(data[4..8]) == MAGIC_COOKIE
  }

  method HandleBindingRequest(data: seq<Byte>, client: SocketAddr) returns (r: Option<seq<Byte>>)
    ensures r.Some? <==> IsBindingRequest(data)
    ensures r.Some? ==> r.value == Message(BINDING_SUCCESS, data[8..20], AttributeFor(client))
  {
    if |data| < 20 {
      return None;
    }
    var msgType := BeValue(data[0..2]);
    if msgType != BINDING_REQUEST {
      return None;
    }
    var magic := BeValue(data[4..8]);
    if magic != MAGIC_COOKIE {
      return None;
    }
    var txId := data[8..20];
    var mappedAttr;
    match client {
      case V4(ip, port) => mappedAttr := BuildXorMappedV4(ip, port);
      case V6(octets, port) => mappedAttr := BuildXorMappedV6(octets, port);
    }
    var response: seq<Byte> := [];
    response := response + BeBytes(BINDING_SUCCESS, 2);
    response := response + BeBytes(|mappedAttr|, 2);
    response := response + BeBytes(MAGIC_COOKIE, 4);
    response := response + txId;
    response := response + mappedAttr;
    assert response == Message(BINDING_SUCCESS, txId, mappedAttr);
    r := Some(response);
  }

  // ── Printed messages ──

  /** Header and attributes. */
  function Message(msgType: U16, txId: TxId, attrs: seq<Byte>): seq<Byte> {
    BeBytes(msgType, 2) + BeBytes(|attrs|, 2) + BeBytes(MAGIC_COOKIE, 4) + txId + attrs
  }

  /** An attribute with the octets that pad it. */
  datatype Tlv = Tlv(kind: U16, value: seq<Byte>, padding: seq<Byte>)

  function PadOf(len: nat): nat {
    (4 - (len % 4)) % 4
  }

  predicate WellFormed(t: Tlv) {
    |t.value| < 0x1_0000 && |t.padding| == PadOf(|t.value|)
  }

  function PrintTlv(t: Tlv): seq<Byte> {
    BeBytes(t.kind, 2) + BeBytes(|t.value|, 2) + t.value + t.padding
  }

  function PrintAll(ts: seq<Tlv>): seq<Byte> {
    if ts == [] then [] else PrintTlv(ts[0]) + PrintAll(ts[1..])
  }

  function MappedTlv(ip: U32, port: U16): Tlv {
    Tlv(XOR_MAPPED_ADDRESS, [0x00, IPV4_FAMILY] + BeBytes(XorPort(port), 2) + BeBytes(XorIp(ip), 4), [])
  }

  function MappedAttribute(ip: U32, port: U16): (attr: seq<Byte>)
    ensures |attr| == 12
  {
    PrintTlv(MappedTlv(ip, port))
  }

  function MappedTlvV6(octets: Ipv6Octets, port: U16): Tlv {
    Tlv(XOR_MAPPED_ADDRESS, [0x00, IPV6_FAMILY] + BeBytes(XorPort(port), 2) + XorFirstFour(octets), [])
  }

  function AttributeFor(client: SocketAddr): seq<Byte> {
    match client
    case V4(ip, port) => MappedAttribute(ip, port)
    case V6(octets, port) => PrintTlv(MappedTlvV6(octets, port))
  }

  /** What the client stops at. */
  predicate IsMapped(kind: U16, len: nat) {
    kind == XOR_MAPPED_ADDRESS && len >= 8
  }

  // ── The client ──

  method BuildBindingRequest(txId: TxId) returns (buf: seq<Byte>)
    ensures buf == Message(BINDING_REQUEST, txId, []) && |buf| == HEADER_LEN
  {
    buf := [];
    buf := buf + BeBytes(BINDING_REQUEST, 2);
    buf := buf + BeBytes(0, 2);
    buf := buf + BeBytes(MAGIC_COOKIE, 4);
    buf := buf + txId;
    AssembledHeader(BeBytes(BINDING_REQUEST, 2), BeBytes(0, 2), BeBytes(MAGIC_COOKIE, 4), txId);
  }

  lemma AssembledHeader(a: seq<Byte>, b: seq<Byte>, c: seq<Byte>, d: seq<Byte>)
    ensures [] + a + b + c + d == a + b + c + d + []
  {
  }

  function ParseResponse(data: seq<Byte>): Result<(U16, TxId, seq<Byte>), StunError> {
    Pow256Values();
    if |data| < HEADER_LEN then Err(MissingMappedAddress)
    else if BeValue(data[4..8]) != MAGIC_COOKIE then Err(MissingMappedAddress)
    else
      var msgLen := BeValue(data[2..4]);
      var rest := |data| - HEADER_LEN;
      var attrEnd := HEADER_LEN + (if msgLen < rest then msgLen else rest);
      Ok((BeValue(data[0..2]), data[8..20], data[HEADER_LEN..attrEnd]))
  }

  /** `u16::from_be_bytes` on two octets. */
  function U16At(s: seq<Byte>, at: nat): U16
    requires at + 2 <= |s|
  {
    var high: nat, low: nat := s[at], s[at + 1];
    256 * high + low
  }

  lemma U16Printed(s: seq<Byte>, at: nat, v: U16)
    requires at + 2 <= |s| && s[at..at + 2] == BeBytes(v, 2)
    ensures U16At(s, at) == v
  {
    assert BeBytes(v, 2) == BeBytes(v / 256, 1) + [v % 256] && BeBytes(v / 256, 1) == [v / 256];
    assert s[at..at + 2][0] == v / 256 && s[at..at + 2][1] == v % 256;
  }

  /** The attributes the walk passes, as (type, offset of the value, length); the last one may run past the end. */
  datatype Item = Item(kind: U16, at: nat, len: nat)

  function ItemAt(attrs: seq<Byte>, pos: nat): Item
    requires pos + 4 <= |attrs|
  {
    Item(U16At(attrs, pos), pos + 4, U16At(attrs, pos + 2))
  }

  function NextPos(i: Item): nat {
    i.at + i.len + PadOf(i.len)
  }

  /** The whole list of attributes from a position on. */
  function Items(attrs: seq<Byte>, pos: nat): seq<Item>
    decreases |attrs| - pos
  {
    if pos + 4 > |attrs| then []
    else var i := ItemAt(attrs, pos); [i] + Items(attrs, NextPos(i))
  }

  /** An XOR-MAPPED-ADDRESS of at least 8 octets that lies inside. */
  predicate Stops(attrs: seq<Byte>, i: Item) {
    IsMapped(i.kind, i.len) && i.at + i.len <= |attrs|
  }

  /** The address that the value of a stopping attribute carries. */
  function AddressAt(attrs: seq<Byte>, at: nat): Option<SocketAddr>
    requires at + 8 <= |attrs|
  {
    Pow256Values();
    if attrs[at + 1] != IPV4_FAMILY then None
    else Some(V4(XorIp(BeValue(attrs[at + 4..at + 8])), XorPort(BeValue(attrs[at + 2..at + 4]))))
  }

  /** The walk from a position on. */
  function Walk(attrs: seq<Byte>, pos: nat): Option<SocketAddr>
    decreases |attrs| - pos
  {
    if pos + 4 > |attrs| then None
    else
      var i := ItemAt(attrs, pos);
      if Stops(attrs, i) then AddressAt(attrs, i.at) else Walk(attrs, NextPos(i))
  }

  /** The index of the first attribute to stop at, or the number of attributes. */
  function FirstStop(attrs: seq<Byte>, items: seq<Item>): nat {
    if items == [] || Stops(attrs, items[0]) then 0 else 1 + FirstStop(attrs, items[1..])
  }

  lemma {:induction false} FirstStopIsFirst(attrs: seq<Byte>, items: seq<Item>)
    ensures var k := FirstStop(attrs, items);
            && k <= |items| && (k < |items| ==> Stops(attrs, items[k]))
            && forall i: nat | i < k :: !Stops(attrs, items[i])
  {
    if items != [] && !Stops(attrs, items[0]) {
      FirstStopIsFirst(attrs, items[1..]);
      forall i: nat | i < FirstStop(attrs, items)
        ensures !Stops(attrs, items[i])
      {
        assert i > 0 ==> items[i] == items[1..][i - 1];
      }
    }
  }

  /** On arbitrary octets the walk gives an address if and only if, among all attributes, the first
      XOR-MAPPED-ADDRESS of length at least 8 that fits has the IPv4 family; and then it is the address in there. */
  lemma {:induction false} WalkReadsFirst(attrs: seq<Byte>, pos: nat)
    ensures var items := Items(attrs, pos);
            var k := FirstStop(attrs, items);
            && k <= |items| && (k < |items| ==> Stops(attrs, items[k]))
            && Walk(attrs, pos) == if k < |items| then AddressAt(attrs, items[k].at) else None
    decreases |attrs| - pos
  {
    FirstStopIsFirst(attrs, Items(attrs, pos));
    if pos + 4 > |attrs| {
    } else {
      var i := ItemAt(attrs, pos);
      var rest := Items(attrs, NextPos(i));
      assert Items(attrs, pos) == [i] + rest && ([i] + rest)[1..] == rest;
      if !Stops(attrs, i) {
        WalkReadsFirst(attrs, NextPos(i));
      }
    }
  }

  /** The loop of the client, on arbitrary octets. */
  method ParseXorMappedAddress(attrs: seq<Byte>) returns (r: Option<SocketAddr>)
    ensures r == Walk(attrs, 0)
  {
    var pos: nat := 0;
    while pos + 4 <= |attrs|
      invariant Walk(attrs, 0) == Walk(attrs, pos)
      decreases |attrs| - pos
    {
      var attrType := U16At(attrs, pos);
      var attrLen := U16At(attrs, pos + 2);
      pos := pos + 4;
      if attrType == XOR_MAPPED_ADDRESS && attrLen >= 8 && pos + attrLen <= |attrs| {
        var family := attrs[pos + 1];
        if family != IPV4_FAMILY {
          return None;
        }
        Pow256Values();
        var xPort := BeValue(attrs[pos + 2..pos + 4]);
        var xAddr := BeValue(attrs[pos + 4..pos + 8]);
        return Some(V4(XorIp(xAddr), XorPort(xPort)));
      }
      pos := pos + attrLen;
      pos := pos + PadOf(attrLen);
    }
    r := None;
  }

  // ── Printer and parser ──

  lemma TlvAt(before: seq<Byte>, t: Tlv, rest: seq<Byte>)
    requires WellFormed(t)
    ensures var all := before + PrintTlv(t) + rest;
            && |PrintTlv(t)| == 4 + |t.value| + |t.padding|
            && ItemAt(all, |before|) == Item(t.kind, |before| + 4, |t.value|)
            && all[|before| + 4..|before| + 4 + |t.value|] == t.value
            && NextPos(ItemAt(all, |before|)) == |before| + |PrintTlv(t)|
  {
    var all, p := before + PrintTlv(t) + rest, |before|;
    assert all[p..p + 2] == BeBytes(t.kind, 2);
    assert all[p + 2..p + 4] == BeBytes(|t.value|, 2);
    U16Printed(all, p, t.kind);
    U16Printed(all, p + 2, |t.value|);
  }

  function SizeOf(t: Tlv): nat {
    4 + |t.value| + |t.padding|
  }

  /** The attributes that the walk meets from a position on are these, and it stops at none of them. */
  predicate Meets(all: seq<Byte>, pos: nat, ts: seq<Tlv>)
    decreases |ts|
  {
    ts == [] || (&& WellFormed(ts[0]) && !IsMapped(ts[0].kind, |ts[0].value|)
                 && pos + SizeOf(ts[0]) <= |all|
                 && ItemAt(all, pos) == Item(ts[0].kind, pos + 4, |ts[0].value|)
                 && Meets(all, pos + SizeOf(ts[0]), ts[1..]))
  }

  function SizeOfAll(ts: seq<Tlv>): nat {
    if ts == [] then 0 else SizeOf(ts[0]) + SizeOfAll(ts[1..])
  }

  lemma SkipOne(all: seq<Byte>, pos: nat, t: Tlv)
    requires WellFormed(t) && !IsMapped(t.kind, |t.value|)
    requires pos + 4 <= |all| && ItemAt(all, pos) == Item(t.kind, pos + 4, |t.value|)
    ensures Walk(all, pos) == Walk(all, pos + SizeOf(t))
  {
    assert NextPos(ItemAt(all, pos)) == pos + SizeOf(t);
  }

  /** Attributes that do not stop the walk are skipped, whatever their lengths and padding. */
  lemma {:induction false} SkipOthers(all: seq<Byte>, pos: nat, ts: seq<Tlv>, end: nat)
    requires Meets(all, pos, ts) && end == pos + SizeOfAll(ts)
    ensures Walk(all, pos) == Walk(all, end)
    decreases |ts|
  {
    if ts == [] {
    } else {
      SkipOne(all, pos, ts[0]);
      SkipOthers(all, pos + SizeOf(ts[0]), ts[1..], end);
    }
  }

  lemma Regroup(a: seq<Byte>, b: seq<Byte>, c: seq<Byte>, d: seq<Byte>)
    ensures a + (b + c) + d == a + b + (c + d) == (a + b) + c + d
    ensures |a + b| + |c| == |a| + |b + c|
  {
  }

  lemma Split(all: seq<Byte>, pos: nat, x: seq<Byte>, y: seq<Byte>)
    requires pos + |x + y| <= |all| && all[pos..pos + |x + y|] == x + y
    ensures all[pos..pos + |x|] == x && all[pos + |x|..pos + |x| + |y|] == y
  {
    SubSlice(all, pos, |x + y|, 0, |x|);
    SubSlice(all, pos, |x + y|, |x|, |x + y|);
    assert (x + y)[0..|x|] == x && (x + y)[|x|..|x + y|] == y;
  }

  lemma ItemOfPrinted(all: seq<Byte>, pos: nat, t: Tlv)
    requires WellFormed(t) && pos + |PrintTlv(t)| <= |all| && all[pos..pos + |PrintTlv(t)|] == PrintTlv(t)
    ensures |PrintTlv(t)| == SizeOf(t) && ItemAt(all, pos) == Item(t.kind, pos + 4, |t.value|)
  {
    var before, rest := all[..pos], all[pos + |PrintTlv(t)|..];
    assert all == before + PrintTlv(t) + rest;
    TlvAt(before, t, rest);
  }

  lemma {:induction false} MeetsPrinted(all: seq<Byte>, pos: nat, ts: seq<Tlv>)
    requires forall t <- ts :: WellFormed(t) && !IsMapped(t.kind, |t.value|)
    requires pos + |PrintAll(ts)| <= |all| && all[pos..pos + |PrintAll(ts)|] == PrintAll(ts)
    ensures Meets(all, pos, ts) && SizeOfAll(ts) == |PrintAll(ts)|
    decreases |ts|
  {
    if ts == [] {
    } else {
      assert ts[0] in ts;
      Split(all, pos, PrintTlv(ts[0]), PrintAll(ts[1..]));
      ItemOfPrinted(all, pos, ts[0]);
      MeetsPrinted(all, pos + SizeOf(ts[0]), ts[1..]);
    }
  }

  /** The walk reads the server's attribute back, wherever it stands. */
  lemma ReadMapped(before: seq<Byte>, ip: U32, port: U16, trailing: seq<Byte>)
    ensures Walk(before + MappedAttribute(ip, port) + trailing, |before|) == Some(V4(ip, port))
  {
    var t := MappedTlv(ip, port);
    var all, at := before + PrintTlv(t) + trailing, |before| + 4;
    TlvAt(before, t, trailing);
    assert all[at..at + 8] == t.value;
    ValueFields(all, at, ip, port);
  }

  lemma Pieces(v: seq<Byte>, a: seq<Byte>, b: seq<Byte>, c: seq<Byte>)
    requires v == a + b + c && |a| == 2 && |b| == 2 && |c| == 4
    ensures v[..2] == a && v[2..4] == b && v[4..8] == c
  {
  }

  lemma SubSlice(all: seq<Byte>, at: nat, n: nat, i: nat, j: nat)
    requires at + n <= |all| && i <= j <= n
    ensures all[at..at + n][i..j] == all[at + i..at + j]
  {
    var v, w := all[at..at + n][i..j], all[at + i..at + j];
    forall k: nat | k < j - i
      ensures v[k] == w[k]
    {
      assert v[k] == all[at..at + n][i + k];
    }
  }

  /** The fields of the value of the server's attribute. */
  lemma ValueFields(all: seq<Byte>, at: nat, ip: U32, port: U16)
    requires at + 8 <= |all| && all[at..at + 8] == MappedTlv(ip, port).value
    ensures AddressAt(all, at) == Some(V4(ip, port))
  {
    var v, xPort, xIp := all[at..at + 8], XorPort(port), XorIp(ip);
    Pieces(v, [0x00, IPV4_FAMILY], BeBytes(xPort, 2), BeBytes(xIp, 4));
    assert all[at + 1] == v[..2][1];
    SubSlice(all, at, 8, 2, 4);
    SubSlice(all, at, 8, 4, 8);
    Pow256Values();
    BeValueOfBytes(xPort, 2);
    BeValueOfBytes(xIp, 4);
    XorTwice(ip, port);
  }

  lemma SkipToNext(others: seq<Tlv>, next: seq<Byte>, trailing: seq<Byte>)
    requires forall t <- others :: WellFormed(t) && !IsMapped(t.kind, |t.value|)
    ensures var all := PrintAll(others) + next + trailing;
            Walk(all, 0) == Walk(all, |PrintAll(others)|)
  {
    var all := PrintAll(others) + next + trailing;
    assert all[0..0 + |PrintAll(others)|] == PrintAll(others);
    MeetsPrinted(all, 0, others);
    SkipOthers(all, 0, others, |PrintAll(others)|);
  }

  /** Round trip over attribute lists: any other attributes, then the server's attribute, then anything. */
  lemma ParseAfterPrint(others: seq<Tlv>, ip: U32, port: U16, trailing: seq<Byte>)
    requires forall t <- others :: WellFormed(t) && !IsMapped(t.kind, |t.value|)
    ensures Walk(PrintAll(others) + MappedAttribute(ip, port) + trailing, 0) == Some(V4(ip, port))
  {
    SkipToNext(others, MappedAttribute(ip, port), trailing);
    ReadMapped(PrintAll(others), ip, port, trailing);
  }

  lemma HeaderFields(msgType: U16, txId: TxId, attrs: seq<Byte>, trailing: seq<Byte>)
    requires |attrs| < 0x1_0000
    ensures var m := Message(msgType, txId, attrs) + trailing;
            && BeValue(m[0..2]) == msgType && BeValue(m[2..4]) == |attrs| && BeValue(m[4..8]) == MAGIC_COOKIE
            && m[8..20] == txId && m[20..20 + |attrs|] == attrs
  {
    var m, cookie := Message(msgType, txId, attrs) + trailing, MAGIC_COOKIE;
    HeaderSlices(m, BeBytes(msgType, 2), BeBytes(|attrs|, 2), BeBytes(cookie, 4), txId, attrs, trailing);
    Pow256Values();
    BeValueOfBytes(msgType, 2);
    BeValueOfBytes(|attrs|, 2);
    BeValueOfBytes(cookie, 4);
  }

  lemma HeaderSlices(
      m: seq<Byte>, a: seq<Byte>, b: seq<Byte>, c: seq<Byte>, txId: TxId, attrs: seq<Byte>, more: seq<Byte>)
    requires m == a + b + c + txId + attrs + more && |a| == |b| == 2 && |c| == 4
    ensures |m| >= HEADER_LEN + |attrs| && m[0..2] == a && m[2..4] == b && m[4..8] == c
    ensures m[8..20] == txId && m[20..20 + |attrs|] == attrs
  {
  }

  /** The header comes back, and exactly the attributes, whatever follows the message. */
  lemma ParseAfterMessage(msgType: U16, txId: TxId, attrs: seq<Byte>, trailing: seq<Byte>)
    requires |attrs| < 0x1_0000
    ensures ParseResponse(Message(msgType, txId, attrs) + trailing) == Ok((msgType, txId, attrs))
  {
    HeaderFields(msgType, txId, attrs, trailing);
  }

  // ── The exchange ──

  /** What a receive into a buffer of n octets leaves of a datagram. */
  function Cut(data: seq<Byte>, n: nat): (r: seq<Byte>)
    ensures r <= data && |r| == if |data| <= n then |data| else n
  {
    if |data| <= n then data else data[..n]
  }

  /** What `discover` makes of the datagram that answers its request. */
  method Discover(txId: TxId, answer: seq<Byte>) returns (r: Result<SocketAddr, StunError>)
    ensures r == Discovered(txId, Cut(answer, DATAGRAM_BUFFER))
  {
    var buf := Cut(answer, DATAGRAM_BUFFER);
    var parsed := ParseResponse(buf);
    if parsed.Err? {
      return Err(parsed.error);
    }
    var (msgType, respTxId, attrs) := parsed.value;
    if msgType != BINDING_SUCCESS {
      return Err(UnexpectedResponse(msgType));
    }
    if respTxId != txId {
      return Err(TransactionMismatch);
    }
    var addr := ParseXorMappedAddress(attrs);
    if addr.None? {
      return Err(MissingMappedAddress);
    }
    r := Ok(addr.value);
  }

  function Discovered(txId: TxId, data: seq<Byte>): Result<SocketAddr, StunError> {
    match ParseResponse(data)
    case Err(e) => Err(e)
    case Ok((msgType, respTxId, attrs)) =>
      if msgType != BINDING_SUCCESS then Err(UnexpectedResponse(msgType))
      else if respTxId != txId then Err(TransactionMismatch)
      else if Walk(attrs, 0).None? then Err(MissingMappedAddress)
      else Ok(Walk(attrs, 0).value)
  }

  lemma SameHeader(m: seq<Byte>, n: nat)
    requires HEADER_LEN <= |m| && HEADER_LEN <= n
    ensures var d := Cut(m, n);
            d[0..2] == m[0..2] && d[2..4] == m[2..4] && d[4..8] == m[4..8] && d[8..20] == m[8..20]
  {
  }

  /** Of a message that the buffer cuts, the header comes back, and as much of the attributes as it holds. */
  lemma ParseAfterCut(msgType: U16, txId: TxId, attrs: seq<Byte>, behind: seq<Byte>, n: nat)
    requires |attrs| < 0x1_0000 && HEADER_LEN <= n
    ensures ParseResponse(Cut(Message(msgType, txId, attrs) + behind, n))
         == Ok((msgType, txId, Cut(attrs, n - HEADER_LEN)))
  {
    var m := Message(msgType, txId, attrs) + behind;
    var d, room := Cut(m, n), n - HEADER_LEN;
    HeaderFields(msgType, txId, attrs, behind);
    SameHeader(m, n);
    var rest := |d| - HEADER_LEN;
    var attrEnd := HEADER_LEN + (if |attrs| < rest then |attrs| else rest);
    assert d[HEADER_LEN..attrEnd] == m[HEADER_LEN..attrEnd] == attrs[..attrEnd - HEADER_LEN];
    assert attrEnd - HEADER_LEN == |Cut(attrs, room)|;
  }

  /** The walk over the first n octets, from a position on, finds nothing. */
  predicate NothingFrom(all: seq<Byte>, pos: nat, n: nat) {
    n <= |all| && Walk(all[..n], pos) == None
  }

  lemma SameItem(all: seq<Byte>, pos: nat, n: nat)
    requires pos + 4 <= n <= |all|
    ensures ItemAt(all[..n], pos) == ItemAt(all, pos)
  {
  }

  lemma NothingAtOther(before: seq<Byte>, t: Tlv, rest: seq<Byte>, n: nat)
    requires WellFormed(t) && !IsMapped(t.kind, |t.value|)
    requires NothingFrom(before + PrintTlv(t) + rest, |before + PrintTlv(t)|, n)
    ensures NothingFrom(before + PrintTlv(t) + rest, |before|, n)
  {
    if |before| + 4 <= n {
      SameItem(before + PrintTlv(t) + rest, |before|, n);
      TlvAt(before, t, rest);
    }
  }

  lemma NothingAtCut(before: seq<Byte>, ip: U32, port: U16, trailing: seq<Byte>, n: nat)
    requires n < |before| + 12
    ensures NothingFrom(before + MappedAttribute(ip, port) + trailing, |before|, n)
  {
    if |before| + 4 <= n {
      SameItem(before + MappedAttribute(ip, port) + trailing, |before|, n);
      TlvAt(before, MappedTlv(ip, port), trailing);
    }
  }

  /** Attributes cut before the end of the server's one give no address. */
  lemma {:induction false} NothingInCut(
      before: seq<Byte>, ts: seq<Tlv>, ip: U32, port: U16, trailing: seq<Byte>, n: nat)
    requires forall t <- ts :: WellFormed(t) && !IsMapped(t.kind, |t.value|)
    requires n < |before| + |PrintAll(ts)| + 12
    requires n <= |before + PrintAll(ts) + (MappedAttribute(ip, port) + trailing)|
    ensures NothingFrom(before + PrintAll(ts) + (MappedAttribute(ip, port) + trailing), |before|, n)
    decreases |ts|
  {
    var rest := MappedAttribute(ip, port) + trailing;
    if ts == [] {
      assert before + PrintAll(ts) + rest == before + MappedAttribute(ip, port) + trailing;
      NothingAtCut(before, ip, port, trailing, n);
    } else {
      var t, more := ts[0], PrintAll(ts[1..]);
      assert t in ts;
      Regroup(before, PrintTlv(t), more, rest);
      NothingInCut(before + PrintTlv(t), ts[1..], ip, port, trailing, n);
      NothingAtOther(before, t, more + rest, n);
    }
  }

  /** The walk over the attributes that a buffer leaves: the address comes back exactly if the server's attribute is
      left whole. */
  lemma ParseAfterCutPrint(others: seq<Tlv>, ip: U32, port: U16, trailing: seq<Byte>, n: nat)
    requires forall t <- others :: WellFormed(t) && !IsMapped(t.kind, |t.value|)
    ensures Walk(Cut(PrintAll(others) + MappedAttribute(ip, port) + trailing, n), 0)
         == if |PrintAll(others)| + 12 <= n then Some(V4(ip, port)) else None
  {
    var p, a := PrintAll(others), MappedAttribute(ip, port);
    var attrs := p + a + trailing;
    if |p| + 12 <= n {
      var left := |Cut(attrs, n)| - |p| - 12;
      assert Cut(attrs, n) == p + a + trailing[..left];
      ParseAfterPrint(others, ip, port, trailing[..left]);
    } else {
      assert [] + p + (a + trailing) == attrs;
      NothingInCut([], others, ip, port, trailing, |Cut(attrs, n)|);
    }
  }

  /** The whole client on a printed answer, with other attributes before, anything after, inside and behind the
      message: the address comes back if and only if at most 480 octets of other attributes precede it, whatever
      trails; otherwise the 512-octet buffer has cut it off, and the client reports that it is missing. */
  lemma DiscoveredAfterPrint(txId: TxId, others: seq<Tlv>, ip: U32, port: U16, trailing: seq<Byte>, behind: seq<Byte>)
    requires forall t <- others :: WellFormed(t) && !IsMapped(t.kind, |t.value|)
    requires |PrintAll(others)| + 12 + |trailing| < 0x1_0000
    ensures var attrs := PrintAll(others) + MappedAttribute(ip, port) + trailing;
            var answer := Message(BINDING_SUCCESS, txId, attrs) + behind;
            Discovered(txId, Cut(answer, DATAGRAM_BUFFER)) ==
              if |PrintAll(others)| <= 480 then Ok(V4(ip, port)) else Err(MissingMappedAddress)
  {
    var attrs := PrintAll(others) + MappedAttribute(ip, port) + trailing;
    ParseAfterCut(BINDING_SUCCESS, txId, attrs, behind, DATAGRAM_BUFFER);
    ParseAfterCutPrint(others, ip, port, trailing, DATAGRAM_BUFFER - HEADER_LEN);
  }

  /** Client after server is the identity on IPv4 clients: the request is answered, and the answer yields the address
      the server saw. */
  method Exchange(txId: TxId, client: SocketAddr) returns (r: Result<SocketAddr, StunError>)
    ensures r == if client.V4? then Ok(client) else Err(MissingMappedAddress)
  {
    var request := BuildBindingRequest(txId);
    RequestIsRequest(txId);
    var response := HandleBindingRequest(request, client);
    assert request[8..20] == txId;
    ghost var m := response.value;
    r := Discover(txId, response.value);
    assert m + [] == m;
    match client {
      case V4(ip, port) =>
        var attr := MappedAttribute(ip, port);
        ParseAfterMessage(BINDING_SUCCESS, txId, attr, []);
        ParseAfterPrint([], ip, port, []);
        assert PrintAll([]) + attr + [] == attr;
      case V6(octets, port) =>
        var attr := PrintTlv(MappedTlvV6(octets, port));
        ParseAfterMessage(BINDING_SUCCESS, txId, attr, []);
        FamilyTwoRejected(octets, port);
    }
  }

  lemma RequestIsRequest(txId: TxId)
    ensures IsBindingRequest(Message(BINDING_REQUEST, txId, []))
  {
    HeaderFields(BINDING_REQUEST, txId, [], []);
    assert Message(BINDING_REQUEST, txId, []) + [] == Message(BINDING_REQUEST, txId, []);
  }

  lemma FamilyTwoRejected(octets: Ipv6Octets, port: U16)
    ensures Walk(PrintTlv(MappedTlvV6(octets, port)), 0) == None
  {
    var t := MappedTlvV6(octets, port);
    ItemOfPrinted(PrintTlv(t), 0, t);
    FamilyAt(BeBytes(t.kind, 2), BeBytes(|t.value|, 2), t.value);
    assert PrintTlv(t) == BeBytes(t.kind, 2) + BeBytes(|t.value|, 2) + t.value;
  }

  lemma FamilyAt(kind: seq<Byte>, len: seq<Byte>, value: seq<Byte>)
    requires |kind| == 2 && |len| == 2 && |value| >= 2
    ensures (kind + len + value)[5] == value[1]
  {
  }
}
