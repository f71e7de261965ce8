/** The DNS responder for peer names: apps/daemon/src/dns.rs, after RFC 1035 sections 4.1.1 to 4.1.4. */
module DnsServer {
  import opened Wrappers
  import opened Bytes

  type Ip = U32

  /** Text of the standard library that is not modelled: `from_utf8` and `to_lowercase`. */
  datatype Unicode = Unicode(decode: seq<Byte> -> Option<string>, lower: string -> string)

  predicate IsAscii(octets: seq<Byte>) {
    forall b <- octets :: b < 128
  }

  function AsciiLower(b: Byte): Byte {
    if 65 <= b <= 90 then b + 32 else b
  }

  function Chars(octets: seq<Byte>): string {
    seq(|octets|, i requires 0 <= i < |octets| => octets[i] as char)
  }

  function LowerLabel(octets: seq<Byte>): seq<Byte> {
    seq(|octets|, i requires 0 <= i < |octets| => AsciiLower(octets[i]))
  }

  /** All that is assumed of it: on ASCII octets, decoding and lower-casing do what they say. */
  ghost predicate Faithful(u: Unicode) {
    forall octets: seq<Byte> | IsAscii(octets) ::
      u.decode(octets) == Some(Chars(octets)) && u.lower(Chars(octets)) == Chars(LowerLabel(octets))
  }

  function LowerChar(c: char): char {
    if 'A' <= c <= 'Z' then c + 32 as char else c
  }

  /** The assumption can be met. */
  lemma FaithfulExists() returns (u: Unicode)
    ensures Faithful(u)
  {
    u := Unicode(
      (octets: seq<Byte>) => if IsAscii(octets) then Some(Chars(octets)) else None,
      (s: string) => seq(|s|, i requires 0 <= i < |s| => LowerChar(s[i])));
    forall octets: seq<Byte> | IsAscii(octets)
      ensures u.lower(Chars(octets)) == Chars(LowerLabel(octets))
    {
      forall i: nat | i < |octets|
        ensures LowerChar(octets[i] as char) == AsciiLower(octets[i]) as char
      {
        assert octets[i] in octets;
      }
    }
  }

  // ── Names ──

  function Join(parts: seq<string>): string {
    if parts == [] then "" else if |parts| == 1 then parts[0] else parts[0] + "." + Join(parts[1..])
  }

  const SUFFIX: string := ".connectalso"

  predicate HasSuffix(name: string) {
    |name| >= |SUFFIX| && name[|name| - |SUFFIX|..] == SUFFIX
  }

  function Stripped(name: string): string {
    if HasSuffix(name) then name[..|name| - |SUFFIX|] else name
  }

  /** The labels from a position on, lower-cased, and the position after them. A label that runs past the end, a
      compression pointer and the end of the datagram end the name too. */
  function Labels(u: Unicode, q: seq<Byte>, pos: nat): Option<(seq<string>, nat)>
    decreases |q| - pos
  {
    if pos >= |q| then Some(([], pos))
    else
      var len := q[pos];
      if len == 0 then Some(([], pos + 1))
      else if len >= 0x40 then Some(([], pos + 2))
      else if pos + 1 + len > |q| then Some(([], pos + 1))
      else
        match u.decode(q[pos + 1..pos + 1 + len])
        case None => None
        case Some(text) => After([u.lower(text)], Labels(u, q, pos + 1 + len))
  }

  /** The labels found so far, then those still to come. */
  function After(found: seq<string>, more: Option<(seq<string>, nat)>): Option<(seq<string>, nat)> {
    match more
    case None => None
    case Some((rest, end)) => Some((found + rest, end))
  }

  lemma AfterNone(more: Option<(seq<string>, nat)>)
    ensures After([], more) == more
  {
    assert more.Some? ==> [] + more.value.0 == more.value.0;
  }

  lemma AfterOneMore(found: seq<string>, next: string, more: Option<(seq<string>, nat)>)
    ensures After(found, After([next], more)) == After(found + [next], more)
  {
    assert more.Some? ==> found + ([next] + more.value.0) == found + [next] + more.value.0;
  }

  function Response(q: seq<Byte>, end: nat, ip: Ip): seq<Byte>
    requires 12 <= end && end + 4 <= |q|
  {
    q[..2] + [0x81, 0x80, 0, 1, 0, 1, 0, 0, 0, 0] + q[12..end + 4]
    + [0xC0, 0x0C, 0, 1, 0, 1, 0, 0, 0, 60, 0, 4] + BeBytes(ip, 4)
  }

  /** The answer to an arbitrary datagram. */
  function Answer(u: Unicode, records: map<string, Ip>, q: seq<Byte>): Option<seq<Byte>> {
    if |q| < 12 || BeValue(q[4..6]) == 0 then None
    else
      match Labels(u, q, 12)
      case None => None
      case Some((labels, end)) =>
        var key := Stripped(Join(labels));
        if end + 4 > |q| || end < 12 || key !in records then None else Some(Response(q, end, records[key]))
  }

  /** The address of the last host whose lower-cased name is the key. */
  function LastFor(u: Unicode, hosts: seq<(string, Ip)>, key: string): Option<Ip> {
    if hosts == [] then None
    else if u.lower(hosts[|hosts| - 1].0) == key then Some(hosts[|hosts| - 1].1)
    else LastFor(u, hosts[..|hosts| - 1], key)
  }

  ghost predicate RecordsOf(u: Unicode, records: map<string, Ip>, hosts: seq<(string, Ip)>) {
    forall key: string ::
      if key in records then LastFor(u, hosts, key) == Some(records[key]) else LastFor(u, hosts, key) == None
  }

  class DnsServer {
    const unicode: Unicode
    var records: map<string, Ip>

    constructor (unicode: Unicode)
      ensures this.unicode == unicode && records == map[]
    {
      this.unicode, records := unicode, map[];
    }

    method UpdateRecords(hosts: seq<(string, Ip)>)
      modifies this
      ensures RecordsOf(unicode, records, hosts)
    {
      records := map[];
      for i := 0 to |hosts|
        invariant RecordsOf(unicode, records, hosts[..i])
      {
        assert hosts[..i + 1][..i] == hosts[..i];
        records := records[unicode.lower(hosts[i].0) := hosts[i].1];
      }
      assert hosts[..|hosts|] == hosts;
    }

    /** The scan of the question name: the labels lower-cased, and the position after them. */
    method ParseName(query: seq<Byte>) returns (r: Option<(seq<string>, nat)>)
      ensures r == Labels(unicode, query, 12)
    {
      var pos: nat := 12;
      var nameParts: seq<string> := [];
      AfterNone(Labels(unicode, query, 12));
      while pos < |query|
        invariant Labels(unicode, query, 12) == After(nameParts, Labels(unicode, query, pos))
        decreases |query| - pos
      {
        var len := query[pos];
        if len == 0 {
          pos := pos + 1;
          break;
        }
        if len >= 0x40 {
          pos := pos + 2;
          break;
        }
        pos := pos + 1;
        if pos + len > |query| {
          break;
        }
        var text := unicode.decode(query[pos..pos + len]);
        if text.None? {
          return None;
        }
        AfterOneMore(nameParts, unicode.lower(text.value), Labels(unicode, query, pos + len));
        nameParts := nameParts + [unicode.lower(text.value)];
        pos := pos + len;
      }
      assert nameParts + [] == nameParts;
      r := Some((nameParts, pos));
    }

    method HandleQuery(query: seq<Byte>) returns (r: Option<seq<Byte>>)
      ensures r == Answer(unicode, records, query)
    {
      if |query| < 12 {
        return None;
      }
      var txId := query[..2];
      var qdcount := BeValue(query[4..6]);
      if qdcount == 0 {
        return None;
      }
      var parsed := ParseName(query);
      if parsed.None? {
        return None;
      }
      var (nameParts, pos) := parsed.value;
      var name := Join(nameParts);
      if pos + 4 > |query| {
        return None;
      }
      var lookup := Stripped(name);
      if lookup !in records {
        return None;
      }
      LabelsEnd(unicode, query, 12);
      var ip := records[lookup];
      var resp := txId;
      resp := resp + [0x81, 0x80, 0, 1, 0, 1, 0, 0, 0, 0];
      resp := resp + query[12..pos + 4];
      resp := resp + [0xC0, 0x0C, 0, 1, 0, 1, 0, 0, 0, 60, 0, 4];
      resp := resp + BeBytes(ip, 4);
      r := Some(resp);
    }
  }

  lemma {:induction false} LabelsEnd(u: Unicode, q: seq<Byte>, pos: nat)
    requires Labels(u, q, pos).Some?
    ensures Labels(u, q, pos).value.1 >= pos
    decreases |q| - pos
  {
    if pos < |q| && 0 < q[pos] < 0x40 && pos + 1 + q[pos] <= |q| {
      LabelsEnd(u, q, pos + 1 + q[pos]);
    }
  }

  // ── Printed queries ──

  predicate IsLabel(octets: seq<Byte>) {
    1 <= |octets| <= 63 && IsAscii(octets)
  }

  /** A zero-terminated sequence of labels. */
  function PrintName(labels: seq<seq<Byte>>): (s: seq<Byte>)
    requires forall l <- labels :: IsLabel(l)
    ensures s != []
  {
    if labels == [] then [0]
    else
      assert IsLabel(labels[0]);
      var length: Byte := |labels[0]|;
      [length] + labels[0] + PrintName(labels[1..])
  }

  function LowerChars(labels: seq<seq<Byte>>): seq<string> {
    if labels == [] then [] else [Chars(LowerLabel(labels[0]))] + LowerChars(labels[1..])
  }

  /** The name a query asks for: labels lower-cased, joined by dots, suffix stripped. */
  function Key(labels: seq<seq<Byte>>): string {
    Stripped(Join(LowerChars(labels)))
  }

  /** Where the first label lies in a printed name. */
  lemma OneLabel(before: seq<Byte>, l: seq<Byte>, name: seq<Byte>, after: seq<Byte>)
    requires |l| < 0x40
    ensures var q, p := before + ([|l|] + l + name) + after, |before|;
            && q == (before + [|l|] + l) + name + after
            && p + 1 + |l| <= |q| && q[p] == |l| && q[p + 1..p + 1 + |l|] == l
  {
    var q := before + ([|l|] + l + name) + after;
    assert q == (before + [|l|] + l) + name + after;
  }

  lemma ReadLabel(u: Unicode, q: seq<Byte>, p: nat, l: seq<Byte>)
    requires Faithful(u) && IsLabel(l) && p + 1 + |l| <= |q| && q[p] == |l| && q[p + 1..p + 1 + |l|] == l
    ensures Labels(u, q, p) == After([Chars(LowerLabel(l))], Labels(u, q, p + 1 + |l|))
  {
    assert u.decode(l) == Some(Chars(l));
  }

  /** Scanning the middle part gives the texts and ends right after it. */
  predicate ScansTo(u: Unicode, before: seq<Byte>, name: seq<Byte>, after: seq<Byte>, texts: seq<string>) {
    Labels(u, before + name + after, |before|) == Some((texts, |before| + |name|))
  }

  lemma ScanOneMore(u: Unicode, before: seq<Byte>, l: seq<Byte>, name: seq<Byte>, after: seq<Byte>, texts: seq<string>)
    requires Faithful(u) && IsLabel(l) && ScansTo(u, before + [|l|] + l, name, after, texts)
    ensures ScansTo(u, before, [|l|] + l + name, after, [Chars(LowerLabel(l))] + texts)
  {
    OneLabel(before, l, name, after);
    ReadLabel(u, before + ([|l|] + l + name) + after, |before|, l);
  }

  lemma ScanRoot(u: Unicode, before: seq<Byte>, after: seq<Byte>)
    ensures ScansTo(u, before, [0], after, [])
  {
    assert (before + [0] + after)[|before|] == 0;
  }

  lemma {:induction false} LabelsOfPrinted(u: Unicode, before: seq<Byte>, labels: seq<seq<Byte>>, after: seq<Byte>)
    requires Faithful(u) && forall l <- labels :: IsLabel(l)
    ensures ScansTo(u, before, PrintName(labels), after, LowerChars(labels))
    decreases |labels|
  {
    if labels == [] {
      ScanRoot(u, before, after);
    } else {
      var l, rest := labels[0], labels[1..];
      assert l in labels && IsLabel(l);
      LabelsOfPrinted(u, before + [|l|] + l, rest, after);
      ScanOneMore(u, before, l, PrintName(rest), after, LowerChars(rest));
    }
  }

  // ── A reader of compressed names ──

  /** The labels of the name at an offset, following at most `hops` pointers. */
  function ReadName(msg: seq<Byte>, pos: nat, hops: nat): Option<seq<seq<Byte>>>
    decreases hops, |msg| - pos
  {
    if pos >= |msg| then None
    else
      var len := msg[pos];
      if len == 0 then Some([])
      else if len >= 0xC0 then
        if pos + 1 >= |msg| || hops == 0 then None
        else
          var offset: nat := BeValue([len - 0xC0, msg[pos + 1]]);
          ReadName(msg, offset, hops - 1)
      else if len >= 0x40 || pos + 1 + len > |msg| then None
      else
        match ReadName(msg, pos + 1 + len, hops)
        case None => None
        case Some(rest) => Some([msg[pos + 1..pos + 1 + len]] + rest)
  }

  lemma {:induction false} ReadPrinted(before: seq<Byte>, labels: seq<seq<Byte>>, after: seq<Byte>, hops: nat)
    requires forall l <- labels :: IsLabel(l)
    ensures ReadName(before + PrintName(labels) + after, |before|, hops) == Some(labels)
    decreases |labels|
  {
    var msg, p := before + PrintName(labels) + after, |before|;
    if labels == [] {
      assert msg[p] == 0;
    } else {
      var l, rest := labels[0], labels[1..];
      assert l in labels && IsLabel(l);
      OneLabel(before, l, PrintName(rest), after);
      ReadPrinted(before + [|l|] + l, rest, after, hops);
      assert labels == [l] + rest;
    }
  }

  // ── Correct answers ──

  /** A query: a header that announces a question, a printed name, type and class, and anything more. */
  function Query(header: seq<Byte>, labels: seq<seq<Byte>>, tail: seq<Byte>): seq<Byte>
    requires forall l <- labels :: IsLabel(l)
  {
    header + PrintName(labels) + tail
  }

  predicate IsHeader(header: seq<Byte>) {
    |header| == 12 && BeValue(header[4..6]) > 0
  }

  /** A query is answered if and only if the name it asks for is that of a host, whatever its type and class, and with
      the address of the last such host. */
  lemma AnsweredIffKnown(u: Unicode, records: map<string, Ip>, hosts: seq<(string, Ip)>,
                         header: seq<Byte>, labels: seq<seq<Byte>>, tail: seq<Byte>)
    requires Faithful(u) && RecordsOf(u, records, hosts)
    requires IsHeader(header) && |tail| >= 4 && forall l <- labels :: IsLabel(l)
    ensures var q := Query(header, labels, tail);
            Answer(u, records, q) ==
              match LastFor(u, hosts, Key(labels))
              case None => None
              case Some(ip) => Some(Response(q, 12 + |PrintName(labels)|, ip))
  {
    var q := Query(header, labels, tail);
    LabelsOfPrinted(u, header, labels, tail);
    assert q[4..6] == header[4..6];
    assert Key(labels) in records <==> LastFor(u, hosts, Key(labels)).Some?;
  }

  /** Flags 0x8180, one question, one answer. */
  const ANSWER_FLAGS: seq<Byte> := [0x81, 0x80, 0, 1, 0, 1, 0, 0, 0, 0]
  /** A pointer to offset 12, type A, class IN, 60 seconds, 4 octets of data. */
  const RECORD_HEAD: seq<Byte> := [0xC0, 0x0C, 0, 1, 0, 1, 0, 0, 0, 60, 0, 4]

  /** An answer is the id and flags, the question, and the record. */
  lemma AnswerLayout(header: seq<Byte>, labels: seq<seq<Byte>>, tail: seq<Byte>, ip: Ip)
    requires |header| == 12 && |tail| >= 4 && forall l <- labels :: IsLabel(l)
    ensures var q, name := Query(header, labels, tail), PrintName(labels);
            && q[..2] == header[..2] && q[12..12 + |name| + 4] == name + tail[..4]
            && Response(q, 12 + |name|, ip)
               == (header[..2] + ANSWER_FLAGS) + name + (tail[..4] + RECORD_HEAD + BeBytes(ip, 4))
  {
    var q, name := Query(header, labels, tail), PrintName(labels);
    assert q[..2] == header[..2];
    assert q[12..12 + |name| + 4] == name + tail[..4];
  }

  lemma FollowPointer(msg: seq<Byte>, at: nat, hops: nat)
    requires at + 1 < |msg| && msg[at] == 0xC0 && msg[at + 1] == 0x0C
    ensures ReadName(msg, at, hops + 1) == ReadName(msg, 12, hops)
  {
    assert BeBytes(12, 2) == [0, 12] by {
      assert BeBytes(0, 1) == [0];
    }
    Pow256Values();
    BeValueOfBytes(12, 2);
  }

  /** What an answer says: the id of the query, one question, the question octet for octet, and one record whose name
      is a pointer that resolves to the name asked for and whose data is the stored address. */
  lemma AnswerMeans(header: seq<Byte>, labels: seq<seq<Byte>>, tail: seq<Byte>, ip: Ip)
    requires |header| == 12 && |tail| >= 4 && forall l <- labels :: IsLabel(l)
    ensures var q := Query(header, labels, tail);
            var resp := Response(q, 12 + |PrintName(labels)|, ip);
            var answerAt := 12 + |PrintName(labels)| + 4;
            && |resp| == answerAt + 16
            && resp[..2] == q[..2] && resp[2..12] == ANSWER_FLAGS && resp[12..answerAt] == q[12..answerAt]
            && ReadName(resp, answerAt, 1) == Some(labels)
            && resp[answerAt..answerAt + 12] == RECORD_HEAD && BeValue(resp[answerAt + 12..]) == ip
  {
    var name := PrintName(labels);
    var answerAt := 12 + |name| + 4;
    var resp := Response(Query(header, labels, tail), 12 + |name|, ip);
    var head := header[..2] + ANSWER_FLAGS;
    AnswerLayout(header, labels, tail, ip);
    assert head[2..] == ANSWER_FLAGS;
    Slices(resp, head, name, tail[..4], RECORD_HEAD, BeBytes(ip, 4));
    assert RECORD_HEAD[..2] == [0xC0, 0x0C];
    assert resp[answerAt..answerAt + 2] == RECORD_HEAD[..2];
    AnswerName(head, labels, tail[..4] + RECORD_HEAD + BeBytes(ip, 4), resp, answerAt);
    Pow256Values();
    BeValueOfBytes(ip, 4);
  }

  lemma Slices(resp: seq<Byte>, head: seq<Byte>, name: seq<Byte>, t: seq<Byte>, r: seq<Byte>, data: seq<Byte>)
    requires resp == head + name + (t + r + data)
    requires |head| == 12 && |t| == 4 && |r| == 12 && |data| == 4
    ensures var at := 12 + |name| + 4;
            && |resp| == at + 16 && resp[..2] == head[..2] && resp[2..12] == head[2..] && resp[12..at] == name + t
            && resp[at..at + 2] == r[..2] && resp[at..at + 12] == r && resp[at + 12..] == data
  {
  }

  lemma AnswerName(head: seq<Byte>, labels: seq<seq<Byte>>, rest: seq<Byte>, resp: seq<Byte>, at: nat)
    requires |head| == 12 && forall l <- labels :: IsLabel(l)
    requires resp == head + PrintName(labels) + rest && at + 2 <= |resp| && resp[at..at + 2] == [0xC0, 0x0C]
    ensures ReadName(resp, at, 1) == Some(labels)
  {
    ReadPrinted(head, labels, rest, 0);
    assert resp[at] == resp[at..at + 2][0] && resp[at + 1] == resp[at..at + 2][1];
    FollowPointer(resp, at, 0);
  }

  // ── Answers to arbitrary datagrams ──

  /** Where the scan from a position on stops: at a zero octet, at an octet that is no length, at a label that runs past
      the end, or at the end. */
  function StopAt(q: seq<Byte>, pos: nat): (s: nat)
    ensures s >= pos
    decreases |q| - pos
  {
    if pos >= |q| || q[pos] == 0 || q[pos] >= 0x40 || pos + 1 + q[pos] > |q| then pos else StopAt(q, pos + 1 + q[pos])
  }

  /** The octets of the labels up to there. */
  function RawLabels(q: seq<Byte>, pos: nat): seq<seq<Byte>>
    decreases |q| - pos
  {
    if pos >= |q| || q[pos] == 0 || q[pos] >= 0x40 || pos + 1 + q[pos] > |q| then []
    else [q[pos + 1..pos + 1 + q[pos]]] + RawLabels(q, pos + 1 + q[pos])
  }

  /** The labels read as these texts, lower-cased. */
  predicate ReadAs(u: Unicode, raw: seq<seq<Byte>>, texts: seq<string>) {
    && |raw| == |texts|
    && forall i: nat | i < |raw| :: u.decode(raw[i]).Some? && u.lower(u.decode(raw[i]).value) == texts[i]
  }

  /** Labels, the place where the scan stops, and the octets passed. */
  lemma {:induction false} ScanStops(u: Unicode, q: seq<Byte>, pos: nat)
    requires Labels(u, q, pos).Some?
    ensures var (texts, end) := Labels(u, q, pos).value;
            var s := StopAt(q, pos);
            && ReadAs(u, RawLabels(q, pos), texts)
            && end == if s >= |q| then s else if q[s] >= 0x40 then s + 2 else s + 1
    decreases |q| - pos
  {
    if pos >= |q| || q[pos] == 0 || q[pos] >= 0x40 || pos + 1 + q[pos] > |q| {
    } else {
      var next := pos + 1 + q[pos];
      ScanStops(u, q, next);
      OneMoreRead(u, q[pos + 1..next], RawLabels(q, next), Labels(u, q, next).value.0);
    }
  }

  lemma OneMoreRead(u: Unicode, l: seq<Byte>, raw: seq<seq<Byte>>, texts: seq<string>)
    requires ReadAs(u, raw, texts) && u.decode(l).Some?
    ensures ReadAs(u, [l] + raw, [u.lower(u.decode(l).value)] + texts)
  {
  }

  function Prepend(raw: seq<seq<Byte>>, rest: Option<seq<seq<Byte>>>): Option<seq<seq<Byte>>> {
    match rest
    case None => None
    case Some(more) => Some(raw + more)
  }

  /** A reader of names goes through the same labels, and then on from the place where the scan stopped. */
  lemma {:induction false} ReaderFollowsScan(q: seq<Byte>, msg: seq<Byte>, pos: nat, hops: nat)
    requires StopAt(q, pos) < |q| && StopAt(q, pos) < |msg|
    requires forall i: nat | pos <= i <= StopAt(q, pos) :: msg[i] == q[i]
    ensures ReadName(msg, pos, hops) == Prepend(RawLabels(q, pos), ReadName(msg, StopAt(q, pos), hops))
    decreases |q| - pos
  {
    var s := StopAt(q, pos);
    if s == pos {
      assert ReadName(msg, s, hops).Some? ==> [] + ReadName(msg, s, hops).value == ReadName(msg, s, hops).value;
    } else {
      var next := pos + 1 + q[pos];
      ReaderFollowsScan(q, msg, next, hops);
      assert msg[pos + 1..next] == q[pos + 1..next];
      PrependMore([q[pos + 1..next]], RawLabels(q, next), ReadName(msg, s, hops));
    }
  }

  lemma PrependMore(a: seq<seq<Byte>>, b: seq<seq<Byte>>, rest: Option<seq<seq<Byte>>>)
    ensures Prepend(a, Prepend(b, rest)) == Prepend(a + b, rest)
  {
    assert rest.Some? ==> a + (b + rest.value) == (a + b) + rest.value;
  }

  /** An answer to any datagram at all: the id, flags, the question area as it came, and the record. */
  lemma AnsweredLayout(u: Unicode, records: map<string, Ip>, q: seq<Byte>)
    requires Answer(u, records, q).Some?
    ensures Labels(u, q, 12).Some?
    ensures var resp := Answer(u, records, q).value;
            var (texts, end) := Labels(u, q, 12).value;
            && 12 <= end && end + 4 <= |q| && |resp| == end + 20 && Stripped(Join(texts)) in records
            && resp[..2] == q[..2] && resp[2..12] == ANSWER_FLAGS && resp[12..end + 4] == q[12..end + 4]
            && resp[end + 4..end + 16] == RECORD_HEAD && BeValue(resp[end + 16..]) == records[Stripped(Join(texts))]
  {
    var end := Labels(u, q, 12).value.1;
    var ip := records[Stripped(Join(Labels(u, q, 12).value.0))];
    Sections(Answer(u, records, q).value, q[..2], ANSWER_FLAGS, q[12..end + 4], RECORD_HEAD, BeBytes(ip, 4));
    Pow256Values();
    BeValueOfBytes(ip, 4);
  }

  lemma Sections(resp: seq<Byte>, id: seq<Byte>, flags: seq<Byte>, m: seq<Byte>, r: seq<Byte>, data: seq<Byte>)
    requires resp == id + flags + m + r + data && |id| == 2 && |flags| == 10 && |r| == 12 && |data| == 4
    ensures |resp| == 12 + |m| + 16 && resp[..2] == id && resp[2..12] == flags && resp[12..12 + |m|] == m
    ensures resp[12 + |m|..12 + |m| + 12] == r && resp[12 + |m| + 12..] == data
  {
  }

  /** What a reader makes of the name in an answer, with a limit on the pointers it follows. */
  predicate Resolves(u: Unicode, resp: seq<Byte>, at: nat, hops: nat, texts: seq<string>) {
    var r := ReadName(resp, at, hops);
    r.Some? && ReadAs(u, r.value, texts)
  }

  /** The octets where the scan stopped read as the end of the name: a zero octet, or a pointer to one. */
  predicate EndsName(resp: seq<Byte>, s: nat, hops: nat)
    requires s < |resp|
  {
    resp[s] == 0 || (resp[s] >= 0xC0 && ReadName(resp, s, hops) == Some([]))
  }

  lemma AnswerReads(u: Unicode, q: seq<Byte>, resp: seq<Byte>, hops: nat, texts: seq<string>)
    requires StopAt(q, 12) < |q| && StopAt(q, 12) < |resp|
    requires forall i: nat | 12 <= i <= StopAt(q, 12) :: resp[i] == q[i]
    requires ReadAs(u, RawLabels(q, 12), texts)
    ensures Resolves(u, resp, 12, hops, texts) <==> EndsName(resp, StopAt(q, 12), hops)
  {
    var s := StopAt(q, 12);
    ReaderFollowsScan(q, resp, 12, hops);
    var raw, rest := RawLabels(q, 12), ReadName(resp, s, hops);
    if rest == Some([]) {
      assert raw + [] == raw;
    } else if rest.Some? {
      assert |raw + rest.value| > |texts|;
    }
  }

  /** Every answered datagram, whatever it holds: the pointer in the answer resolves to the labels that were looked up
      if and only if the scan stopped at a zero octet, or at a compression pointer that resolves to the root. The scan
      itself takes any octet from 0x40 on, and any label that runs past the end, for the end of the name. */
  lemma AnswerNamesLookup(u: Unicode, records: map<string, Ip>, q: seq<Byte>, hops: nat)
    requires Answer(u, records, q).Some?
    ensures Labels(u, q, 12).Some? && StopAt(q, 12) < |q| && StopAt(q, 12) < |Answer(u, records, q).value|
    ensures var resp := Answer(u, records, q).value;
            var (texts, end) := Labels(u, q, 12).value;
            Resolves(u, resp, end + 4, hops + 1, texts) <==> EndsName(resp, StopAt(q, 12), hops)
    ensures var resp := Answer(u, records, q).value;
            var (texts, end) := Labels(u, q, 12).value;
            Resolves(u, resp, end + 4, 1, texts) <==> q[StopAt(q, 12)] == 0
  {
    AnsweredLayout(u, records, q);
    ScanStops(u, q, 12);
    var resp := Answer(u, records, q).value;
    var (texts, end) := Labels(u, q, 12).value;
    var s := StopAt(q, 12);
    SameOctets(q, resp, end + 4);
    assert resp[end + 4] == resp[end + 4..end + 16][0] && resp[end + 5] == resp[end + 4..end + 16][1];
    FollowPointer(resp, end + 4, hops);
    FollowPointer(resp, end + 4, 0);
    AnswerReads(u, q, resp, hops, texts);
    AnswerReads(u, q, resp, 0, texts);
  }

  lemma SameOctets(q: seq<Byte>, resp: seq<Byte>, n: nat)
    requires 12 <= n <= |q| && n <= |resp| && resp[12..n] == q[12..n]
    ensures forall i: nat | 12 <= i < n :: resp[i] == q[i]
  {
    forall i: nat | 12 <= i < n
      ensures resp[i] == q[i]
    {
      assert resp[i] == resp[12..n][i - 12] && q[i] == q[12..n][i - 12];
    }
  }

  /** Such a datagram: "a", then the length of a label that is not there. It is answered with the address of the host
      "a", and no reader finds that name in the answer. */
  lemma AnswersWhatItCannotName(u: Unicode, records: map<string, Ip>, header: seq<Byte>, hops: nat)
    requires Faithful(u) && IsHeader(header) && "a" in records
    ensures var q := header + [1, 97, 63, 1, 1, 1, 1];
            && Answer(u, records, q) == Some(Response(q, 15, records["a"]))
            && !Resolves(u, Response(q, 15, records["a"]), 19, hops + 1, ["a"])
  {
    var q := header + [1, 97, 63, 1, 1, 1, 1];
    ScansCutLabel(u, q);
    assert q[4..6] == header[4..6];
    AnswerNamesLookup(u, records, q, hops);
    AnsweredLayout(u, records, q);
    SameOctets(q, Response(q, 15, records["a"]), 19);
  }

  lemma ScansCutLabel(u: Unicode, q: seq<Byte>)
    requires Faithful(u) && |q| == 19 && q[12] == 1 && q[13] == 97 && q[14] == 63
    ensures Labels(u, q, 12) == Some((["a"], 15)) && StopAt(q, 12) == 14 && Stripped(Join(["a"])) == "a"
  {
    var l: seq<Byte> := [97];
    assert q[13..14] == l && IsLabel(l);
    ReadLabel(u, q, 12, l);
    assert Chars(LowerLabel(l)) == "a" by {
      assert LowerLabel(l) == [97];
    }
    var pos: nat := 14;
    assert Labels(u, q, pos) == Some(([], 15));
    assert After(["a"], Some(([], 15))) == Some((["a"], 15)) by {
      assert ["a"] + [] == ["a"];
    }
    assert StopAt(q, pos) == 14;
  }

  /** `<name>.connectalso` asks for the key `<name>`; the bare name asks for the same key unless it ends in the suffix
      itself. */
  lemma SuffixIsOptional(labels: seq<seq<Byte>>, suffix: seq<Byte>)
    requires labels != [] && Chars(LowerLabel(suffix)) == "connectalso"
    ensures Key(labels + [suffix]) == Join(LowerChars(labels))
    ensures Key(labels) == Key(labels + [suffix]) <==> !HasSuffix(Join(LowerChars(labels)))
  {
    JoinMore(labels, suffix);
    StripAppended(Join(LowerChars(labels)));
  }

  lemma StripAppended(name: string)
    ensures Stripped(name + "." + "connectalso") == name
  {
    assert "." + "connectalso" == SUFFIX;
    var all := name + "." + "connectalso";
    assert all == name + SUFFIX;
    assert all[|name|..] == SUFFIX && all[..|name|] == name;
  }

  lemma {:induction false} JoinMore(labels: seq<seq<Byte>>, last: seq<Byte>)
    requires labels != []
    ensures Join(LowerChars(labels + [last])) == Join(LowerChars(labels)) + "." + Chars(LowerLabel(last))
  {
    var all := labels + [last];
    assert all[0] == labels[0] && all[1..] == labels[1..] + [last];
    var first := Chars(LowerLabel(labels[0]));
    assert LowerChars(all) == [first] + LowerChars(labels[1..] + [last]);
    assert LowerChars(all)[1..] == LowerChars(labels[1..] + [last]);
    if |labels| == 1 {
      assert labels[1..] + [last] == [last] && LowerChars([last]) == [Chars(LowerLabel(last))];
      assert LowerChars(labels) == [first];
    } else {
      JoinMore(labels[1..], last);
      assert LowerChars(labels)[1..] == LowerChars(labels[1..]);
      assert |LowerChars(labels[1..])| >= 1 && |LowerChars(labels[1..] + [last])| >= 1;
    }
  }
}
