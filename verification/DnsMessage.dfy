/** DNS messages as e2e/linux/multinode_scenarios.py writes queries and
    e2e/linux/dns_peer.py answers them. Field layouts follow sections 3.1, 4.1.1, 4.1.2
    and 4.1.4 of RFC 1035. */
module DnsMessage {
  import opened Prelude

  type Byte = b: int | 0 <= b < 256
  type Bytes = seq<Byte>

  function U16(b: Bytes, at: nat): nat
    requires at + 2 <= |b|
  {
    var high: int, low: int := b[at], b[at + 1];
    high * 256 + low
  }

  function Put16(v: nat): (r: Bytes)
    requires v < 65536
    ensures |r| == 2 && U16(r, 0) == v
  {
    [v / 256, v % 256]
  }

  predicate Ascii(text: Bytes) {
    forall i :: 0 <= i < |text| ==> text[i] < 128
  }

  /** Section 3.1: labels are 1 to 63 octets; this server takes ASCII only. */
  predicate LabelOk(l: Bytes) {
    1 <= |l| <= 63 && Ascii(l)
  }

  ghost predicate AllOk(labels: seq<Bytes>) {
    forall i :: 0 <= i < |labels| ==> LabelOk(labels[i])
  }

  // ----- encoding -------------------------------------------------------

  predicate Writable(labels: seq<Bytes>) {
    forall i :: 0 <= i < |labels| ==> |labels[i]| < 256
  }

  /** A length octet before each label, and the empty root label at the end. */
  function EncodeName(labels: seq<Bytes>): (r: Bytes)
    requires Writable(labels)
    ensures |r| >= 1
  {
    if labels == [] then [0] else [|labels[0]|] + labels[0] + EncodeName(labels[1..])
  }

  function Header(id: nat, flags: nat, questions: nat, answers: nat): (r: Bytes)
    requires id < 65536 && flags < 65536 && questions < 65536 && answers < 65536
    ensures |r| == 12
    ensures U16(r, 0) == id && U16(r, 2) == flags && U16(r, 4) == questions && U16(r, 6) == answers
    ensures U16(r, 8) == 0 && U16(r, 10) == 0
  {
    Put16(id) + Put16(flags) + Put16(questions) + Put16(answers) + [0, 0] + [0, 0]
  }

  function Query(id: nat, labels: seq<Bytes>, qtype: nat): Bytes
    requires id < 65536 && qtype < 65536 && Writable(labels)
  {
    Header(id, 0x100, 1, 0) + EncodeName(labels) + Put16(qtype) + Put16(1)
  }

  // ----- parsing --------------------------------------------------------

  /** What stands at an offset where a label may start. */
  datatype Piece = Root | Label(text: Bytes) | Malformed

  function PieceAt(packet: Bytes, offset: nat): (r: Piece)
    requires offset < |packet|
    ensures r.Label? ==> LabelOk(r.text) && offset + 1 + |r.text| <= |packet|
  {
    var length, start := packet[offset], offset + 1;
    if length == 0 then Root
    else if length > 63 || start + length > |packet| then Malformed
    else
      var text := packet[start..start + length];
      if !Ascii(text) then Malformed else Label(text)
  }

  /** The labels from `offset` on and the offset after the root label. */
  function ParseName(packet: Bytes, offset: nat): (r: Option<(seq<Bytes>, nat)>)
    ensures r.Some? ==> offset < r.value.1 <= |packet|
    decreases |packet| - offset
  {
    if offset >= |packet| then None
    else
      match PieceAt(packet, offset)
      case Root => Some(([], offset + 1))
      case Malformed => None
      case Label(text) =>
        var rest := ParseName(packet, offset + 1 + |text|);
        if rest.None? then None else Some(([text] + rest.value.0, rest.value.1))
  }

  function LowerByte(b: Byte): Byte {
    if 65 <= b <= 90 then b + 32 else b
  }

  function LowerLabel(l: Bytes): (r: Bytes)
    ensures |r| == |l| && forall i :: 0 <= i < |l| ==> r[i] == LowerByte(l[i])
  {
    seq(|l|, i requires 0 <= i < |l| => LowerByte(l[i]))
  }

  function LowerLabels(ls: seq<Bytes>): (r: seq<Bytes>)
    ensures |r| == |ls| && forall i :: 0 <= i < |ls| ==> r[i] == LowerLabel(ls[i])
  {
    seq(|ls|, i requires 0 <= i < |ls| => LowerLabel(ls[i]))
  }

  const TEST: Bytes := [116, 101, 115, 116]
  const WG_E2E: Bytes := [119, 103, 45, 101, 50, 101]
  const OVPN_E2E: Bytes := [111, 118, 112, 110, 45, 101, 50, 101]
  const XRAY_E2E: Bytes := [120, 114, 97, 121, 45, 101, 50, 101]

  /** The three fixture names, compared without case. */
  predicate Hosted(labels: seq<Bytes>) {
    LowerLabels(labels) in [[WG_E2E, TEST], [OVPN_E2E, TEST], [XRAY_E2E, TEST]]
  }

  /** A name pointer to the question, type A, class IN, TTL 30, four octets of data. */
  function Record(answerIp: Bytes): Bytes {
    [0xc0, 0x0c] + Put16(1) + Put16(1) + [0, 0, 0, 30] + Put16(4) + answerIp
  }

  function Response(packet: Bytes, answerIp: Bytes): Option<Bytes> {
    if |packet| < 17 || U16(packet, 4) != 1 then None
    else
      var name := ParseName(packet, 12);
      if name.None? || name.value.1 + 4 > |packet| then None
      else
        var end := name.value.1;
        var answer := Hosted(name.value.0) && U16(packet, end) == 1 && U16(packet, end + 2) == 1;
        var head := packet[..2] + Put16(0x8180) + Put16(1) + Put16(if answer then 1 else 0) + [0, 0] + [0, 0];
        Some(head + packet[12..end + 4] + if answer then Record(answerIp) else [])
  }

  /** The label loop: it stops at the root label and gives up at a malformed one or at
      the end of the packet. */
  method ReadLabels(packet: Bytes) returns (r: Option<(seq<Bytes>, nat)>)
    requires |packet| >= 12
    ensures r == ParseName(packet, 12)
  {
    hide PieceAt;
    var offset: nat := 12;
    var labels: seq<Bytes> := [];
    ghost var whole := ParseName(packet, 12);
    assert whole.Some? ==> labels + whole.value.0 == whole.value.0;
    while offset < |packet|
      invariant 12 <= offset <= |packet|
      invariant ParseName(packet, offset).None? ==> whole.None?
      invariant ParseName(packet, offset).Some? ==>
                  whole == Some((labels + ParseName(packet, offset).value.0, ParseName(packet, offset).value.1))
    {
      var piece := ReadPiece(packet, offset);
      ghost var rest := if piece.Label? then ParseName(packet, offset + 1 + |piece.text|) else None;
      if piece.Root? {
        assert labels + [] == labels;
        return Some((labels, offset + 1));
      }
      if piece.Malformed? { return None; }
      assert rest.Some? ==> labels + ([piece.text] + rest.value.0) == (labels + [piece.text]) + rest.value.0;
      labels := labels + [piece.text];
      offset := offset + 1 + |piece.text|;
    }
    r := None;
  }

  method ReadPiece(packet: Bytes, offset: nat) returns (r: Piece)
    requires offset < |packet|
    ensures r == PieceAt(packet, offset)
  {
    var length := packet[offset];
    var start := offset + 1;
    if length == 0 { return Root; }
    if length > 63 || start + length > |packet| { return Malformed; }
    var text := packet[start..start + length];
    if !Ascii(text) { return Malformed; }
    r := Label(text);
  }

  method BuildResponse(packet: Bytes, answerIp: Bytes) returns (r: Option<Bytes>)
    ensures r == Response(packet, answerIp)
  {
    hide Record, Hosted, ParseName;
    if |packet| < 17 { return None; }
    if U16(packet, 4) != 1 { return None; }
    var name := ReadLabels(packet);
    if name.None? { return None; }
    var labels, offset := name.value.0, name.value.1;
    if offset + 4 > |packet| { return None; }
    var qtype, qclass := U16(packet, offset), U16(packet, offset + 2);
    var question := packet[12..offset + 4];
    var answer := Hosted(labels) && qtype == 1 && qclass == 1;
    var header := packet[..2] + Put16(0x8180) + Put16(1) + Put16(if answer then 1 else 0) + [0, 0] + [0, 0];
    if !answer {
      assert header + question + [] == header + question;
      return Some(header + question);
    }
    r := Some(header + question + Record(answerIp));
  }

  /** The octet is the character, or its capital. */
  ghost predicate SpelledBy(b: Byte, c: char) {
    b == c as int || ('a' <= c <= 'z' && b == c as int - 32)
  }

  /** The label spells the text, capitals counting as small letters. */
  ghost predicate Spells(l: Bytes, text: string) {
    |l| == |text| && forall i :: 0 <= i < |l| ==> SpelledBy(l[i], text[i])
  }

  lemma SpellsExactly(l: Bytes, small: Bytes, text: string)
    requires |small| == |text| && forall i :: 0 <= i < |text| ==> small[i] == text[i] as int
    requires forall i :: 0 <= i < |text| ==> !('A' <= text[i] <= 'Z')
    ensures LowerLabel(l) == small <==> Spells(l, text)
  {
    var low := LowerLabel(l);
    if |l| == |text| {
      forall i | 0 <= i < |l| ensures low[i] == small[i] <==> SpelledBy(l[i], text[i]) {
        assert low[i] == LowerByte(l[i]);
      }
      if Spells(l, text) { assert low == small; }
    }
  }

  /** The server knows three names, compared without case. */
  lemma HostedExactly(labels: seq<Bytes>)
    ensures Hosted(labels) <==>
            |labels| == 2 && Spells(labels[1], "test")
            && (Spells(labels[0], "wg-e2e") || Spells(labels[0], "ovpn-e2e") || Spells(labels[0], "xray-e2e"))
  {
    hide LowerLabel, Spells;
    var low := LowerLabels(labels);
    if |labels| == 2 {
      assert low == [LowerLabel(labels[0]), LowerLabel(labels[1])];
      SpellsExactly(labels[1], TEST, "test");
      SpellsExactly(labels[0], WG_E2E, "wg-e2e");
      SpellsExactly(labels[0], OVPN_E2E, "ovpn-e2e");
      SpellsExactly(labels[0], XRAY_E2E, "xray-e2e");
    }
  }

  // ----- the parser and the encoder -------------------------------------

  /** The encoding of the labels stands at `offset`. */
  ghost predicate EncodedAt(packet: Bytes, offset: nat, labels: seq<Bytes>)
    decreases |labels|
  {
    if labels == [] then offset < |packet| && packet[offset] == 0
    else
      var l, next := labels[0], offset + 1 + |labels[0]|;
      next <= |packet| && packet[offset] == |l| && packet[offset + 1..next] == l && EncodedAt(packet, next, labels[1..])
  }

  lemma PieceIsLabel(packet: Bytes, offset: nat, l: Bytes)
    requires LabelOk(l) && offset + 1 + |l| <= |packet|
    requires packet[offset] == |l| && packet[offset + 1..offset + 1 + |l|] == l
    ensures PieceAt(packet, offset) == Label(l)
  {
  }

  lemma PieceIsRoot(packet: Bytes, offset: nat)
    requires offset < |packet| && packet[offset] == 0
    ensures PieceAt(packet, offset) == Root
  {
  }

  /** Parsing an encoding, wherever it stands, gives the labels back. */
  lemma {:induction false} ParseEncoded(packet: Bytes, offset: nat, labels: seq<Bytes>)
    requires AllOk(labels) && Writable(labels) && EncodedAt(packet, offset, labels)
    ensures ParseName(packet, offset) == Some((labels, offset + |EncodeName(labels)|))
    decreases |labels|
  {
    hide PieceAt, LabelOk, ParseName, EncodedAt, EncodeName;
    if labels == [] {
      EncodedRoot(packet, offset);
    } else {
      var l, rest := labels[0], labels[1..];
      EncodedParts(packet, offset, labels);
      ParseEncoded(packet, offset + 1 + |l|, rest);
      PieceIsLabel(packet, offset, l);
      NextLabel(packet, offset, l);
      assert [l] + rest == labels;
    }
  }

  lemma EncodedRoot(packet: Bytes, offset: nat)
    requires EncodedAt(packet, offset, [])
    ensures ParseName(packet, offset) == Some(([], offset + |EncodeName([])|))
  {
    PieceIsRoot(packet, offset);
  }

  lemma EncodedParts(packet: Bytes, offset: nat, labels: seq<Bytes>)
    requires labels != [] && AllOk(labels) && Writable(labels) && EncodedAt(packet, offset, labels)
    ensures LabelOk(labels[0]) && AllOk(labels[1..]) && Writable(labels[1..])
    ensures offset + 1 + |labels[0]| <= |packet| && packet[offset] == |labels[0]|
    ensures packet[offset + 1..offset + 1 + |labels[0]|] == labels[0]
    ensures EncodedAt(packet, offset + 1 + |labels[0]|, labels[1..])
    ensures |EncodeName(labels)| == 1 + |labels[0]| + |EncodeName(labels[1..])|
  {
    hide LabelOk;
  }

  lemma NextLabel(packet: Bytes, offset: nat, l: Bytes)
    requires offset < |packet| && PieceAt(packet, offset) == Label(l)
    ensures ParseName(packet, offset) ==
            (var rest := ParseName(packet, offset + 1 + |l|);
             if rest.None? then None else Some(([l] + rest.value.0, rest.value.1)))
  {
    hide PieceAt;
  }

  /** What the parser accepts is an encoding of labels it would accept. */
  lemma {:induction false} ParseSound(packet: Bytes, offset: nat)
    requires ParseName(packet, offset).Some?
    ensures AllOk(ParseName(packet, offset).value.0) && Writable(ParseName(packet, offset).value.0)
    ensures EncodedAt(packet, offset, ParseName(packet, offset).value.0)
    ensures ParseName(packet, offset).value.1 == offset + |EncodeName(ParseName(packet, offset).value.0)|
    decreases |packet| - offset
  {
    hide Ascii;
    var piece := PieceAt(packet, offset);
    if piece.Label? {
      ParseSound(packet, offset + 1 + |piece.text|);
      var rest := ParseName(packet, offset + 1 + |piece.text|).value;
      assert ([piece.text] + rest.0)[1..] == rest.0;
    }
  }

  /** An encoding put between any bytes stands where it was put. */
  lemma {:induction false} EncodedInPlace(before: Bytes, labels: seq<Bytes>, after: Bytes)
    requires Writable(labels)
    ensures EncodedAt(before + EncodeName(labels) + after, |before|, labels)
    decreases |labels|
  {
    var packet := before + EncodeName(labels) + after;
    if labels != [] {
      var l, rest := labels[0], EncodeName(labels[1..]);
      EncodedInPlace(before + [|l|] + l, labels[1..], after);
      assert packet == (before + [|l|] + l) + rest + after;
    }
  }

  /** Standing at an offset is being the slice there. */
  lemma {:induction false} EncodedSlice(packet: Bytes, offset: nat, labels: seq<Bytes>)
    requires Writable(labels) && EncodedAt(packet, offset, labels)
    ensures offset + |EncodeName(labels)| <= |packet|
    ensures packet[offset..offset + |EncodeName(labels)|] == EncodeName(labels)
    decreases |labels|
  {
    if labels != [] {
      var l, next := labels[0], offset + 1 + |labels[0]|;
      EncodedSlice(packet, next, labels[1..]);
      var end := next + |EncodeName(labels[1..])|;
      assert packet[offset..end] == [packet[offset]] + packet[offset + 1..next] + packet[next..end];
    }
  }

  lemma SliceEncoded(packet: Bytes, offset: nat, labels: seq<Bytes>)
    requires Writable(labels) && offset + |EncodeName(labels)| <= |packet|
    requires packet[offset..offset + |EncodeName(labels)|] == EncodeName(labels)
    ensures EncodedAt(packet, offset, labels)
  {
    hide EncodeName, EncodedAt;
    var end := offset + |EncodeName(labels)|;
    assert packet == packet[..offset] + packet[offset..end] + packet[end..];
    EncodedInPlace(packet[..offset], labels, packet[end..]);
  }

  /** For labels a length octet can announce, the query's name reads back as those labels
      exactly when each label is 1 to 63 ASCII octets. */
  lemma QueryRoundTrip(id: nat, labels: seq<Bytes>, qtype: nat)
    requires id < 65536 && qtype < 65536 && Writable(labels)
    ensures ParseName(Query(id, labels, qtype), 12) == Some((labels, 12 + |EncodeName(labels)|)) <==> AllOk(labels)
  {
    hide ParseName, EncodeName, EncodedAt, Header, Put16;
    var q, enc := Query(id, labels, qtype), EncodeName(labels);
    if AllOk(labels) {
      assert q == Header(id, 0x100, 1, 0) + enc + (Put16(qtype) + Put16(1));
      EncodedInPlace(Header(id, 0x100, 1, 0), labels, Put16(qtype) + Put16(1));
      ParseEncoded(q, 12, labels);
    }
    if ParseName(q, 12) == Some((labels, 12 + |enc|)) {
      ParseSound(q, 12);
    }
  }

  /** The server answers a packet exactly when it is long enough, asks one question and
      carries a well-formed name followed by type and class. */
  lemma AnsweredExactly(packet: Bytes, answerIp: Bytes)
    ensures Response(packet, answerIp).Some? <==>
            |packet| >= 17 && U16(packet, 4) == 1 &&
            exists labels: seq<Bytes> ::
              AllOk(labels) && Writable(labels) && 12 + |EncodeName(labels)| + 4 <= |packet|
              && packet[12..12 + |EncodeName(labels)|] == EncodeName(labels)
  {
    hide ParseName, EncodeName, EncodedAt, Record, Hosted;
    if Response(packet, answerIp).Some? {
      ParseSound(packet, 12);
      EncodedSlice(packet, 12, ParseName(packet, 12).value.0);
    }
    if |packet| >= 17 && U16(packet, 4) == 1 {
      forall labels: seq<Bytes> | AllOk(labels) && Writable(labels) && 12 + |EncodeName(labels)| + 4 <= |packet|
                                  && packet[12..12 + |EncodeName(labels)|] == EncodeName(labels)
        ensures Response(packet, answerIp).Some?
      {
        SliceEncoded(packet, 12, labels);
        ParseEncoded(packet, 12, labels);
      }
    }
  }

  /** Whatever the packet, a reply keeps its id, says one question and as many answers as
      records follow, echoes the question, and its answer names the question by a pointer
      to offset 12, where the same labels parse again. */
  lemma ReplyWellFormed(packet: Bytes, answerIp: Bytes)
    requires Response(packet, answerIp).Some?
    ensures |packet| >= 17 && ParseName(packet, 12).Some? && ParseName(packet, 12).value.1 + 4 <= |packet|
    ensures var reply, end := Response(packet, answerIp).value, ParseName(packet, 12).value.1;
            && |reply| >= end + 4 >= 12
            && reply[..2] == packet[..2] && U16(reply, 2) == 0x8180 && U16(reply, 4) == 1
            && U16(reply, 8) == 0 && U16(reply, 10) == 0
            && reply[12..end + 4] == packet[12..end + 4]
            && (if U16(reply, 6) == 1 then reply[end + 4..] == Record(answerIp)
                else U16(reply, 6) == 0 && |reply| == end + 4)
            && (U16(reply, 6) == 1 <==> Hosted(ParseName(packet, 12).value.0) && U16(packet, end) == 1
                                        && U16(packet, end + 2) == 1)
            && ParseName(reply, 12) == ParseName(packet, 12)
  {
    hide Hosted, Record, ParseName, U16, Put16;
    var name := ParseName(packet, 12).value;
    var end := name.1;
    var answer := Hosted(name.0) && U16(packet, end) == 1 && U16(packet, end + 2) == 1;
    ReplyParts(packet[..2], packet[12..end + 4], answer, if answer then Record(answerIp) else []);
    var reply := Response(packet, answerIp).value;
    hide Response;
    assert 12 + |packet[12..end + 4]| == end + 4;
    SameName(packet, reply, end);
  }

  /** The fields of a reply, whatever its question and records. */
  lemma ReplyParts(id: Bytes, question: Bytes, answer: bool, records: Bytes)
    requires |id| == 2
    ensures var head := id + Put16(0x8180) + Put16(1) + Put16(if answer then 1 else 0) + [0, 0] + [0, 0];
            var reply := head + question + records;
            && |reply| == 12 + |question| + |records|
            && reply[..2] == id && U16(reply, 2) == 0x8180 && U16(reply, 4) == 1
            && U16(reply, 6) == (if answer then 1 else 0) && U16(reply, 8) == 0 && U16(reply, 10) == 0
            && reply[12..12 + |question|] == question && reply[12 + |question|..] == records
  {
  }

  /** Packets that agree on the question parse the same name. */
  lemma SameName(packet: Bytes, reply: Bytes, end: nat)
    requires ParseName(packet, 12).Some? && ParseName(packet, 12).value.1 == end
    requires end + 4 <= |packet| && end + 4 <= |reply| && reply[12..end + 4] == packet[12..end + 4]
    ensures ParseName(reply, 12) == ParseName(packet, 12)
  {
    hide ParseName, EncodeName, EncodedAt;
    ParseSound(packet, 12);
    var labels := ParseName(packet, 12).value.0;
    EncodedSlice(packet, 12, labels);
    SliceOfSlice(packet, 12, end + 4, 0, end - 12);
    SliceOfSlice(reply, 12, end + 4, 0, end - 12);
    SliceEncoded(reply, 12, labels);
    ParseEncoded(reply, 12, labels);
  }

  // ----- reading the answer ---------------------------------------------

  datatype Answer = Answer(labels: seq<Bytes>, rtype: nat, rclass: nat, ttl: nat, data: Bytes, next: nat)

  /** A name that is a pointer (section 4.1.4) or a sequence of labels. */
  function ReadName(packet: Bytes, at: nat): Option<(seq<Bytes>, nat)> {
    if at + 2 <= |packet| && packet[at] >= 0xc0 then
      var target := ParseName(packet, U16(packet, at) - 0xc000);
      if target.None? then None else Some((target.value.0, at + 2))
    else ParseName(packet, at)
  }

  /** A resource record as a resolver reads it (section 4.1.3). */
  function ReadRecord(packet: Bytes, at: nat): Option<Answer> {
    var name := ReadName(packet, at);
    if name.None? || name.value.1 + 10 > |packet| then None
    else
      var k := name.value.1;
      var size := U16(packet, k + 8);
      if k + 10 + size > |packet| then None
      else Some(Answer(name.value.0, U16(packet, k), U16(packet, k + 2),
                       U16(packet, k + 4) * 65536 + U16(packet, k + 6), packet[k + 10..k + 10 + size], k + 10 + size))
  }

  /** The fixed part of a record, wherever it stands at the end of a message. */
  lemma RecordAt(reply: Bytes, at: nat, answerIp: Bytes)
    requires at <= |reply| && reply[at..] == Record(answerIp)
    ensures |reply| == at + 12 + |answerIp|
    ensures reply[at] == 0xc0 && U16(reply, at) == 0xc00c && U16(reply, at + 2) == 1 && U16(reply, at + 4) == 1
    ensures U16(reply, at + 6) == 0 && U16(reply, at + 8) == 30 && U16(reply, at + 10) == 4
    ensures reply[at + 12..] == answerIp
  {
    var record := Record(answerIp);
    assert forall i :: 0 <= i < |record| ==> reply[at + i] == record[i];
    assert |record| == 12 + |answerIp|;
    assert reply[at + 12..] == reply[at..][12..] == answerIp;
  }

  /** A resolver that follows section 4.1 of RFC 1035 reads the answer as the question's own
      name, type A, class IN, TTL 30 and the address, with nothing left over, exactly when
      the address has four octets. */
  lemma AnswerReadsBack(packet: Bytes, answerIp: Bytes)
    requires Response(packet, answerIp).Some? && |Response(packet, answerIp).value| >= 8
    requires U16(Response(packet, answerIp).value, 6) == 1
    ensures ParseName(packet, 12).Some?
    ensures var reply, name := Response(packet, answerIp).value, ParseName(packet, 12).value;
            ReadRecord(reply, name.1 + 4) == Some(Answer(name.0, 1, 1, 30, answerIp, |reply|)) <==> |answerIp| == 4
  {
    hide Hosted, Record, ParseName, Response;
    ReplyWellFormed(packet, answerIp);
    var reply, name := Response(packet, answerIp).value, ParseName(packet, 12).value;
    RecordAt(reply, name.1 + 4, answerIp);
    var at := name.1 + 4;
    assert ReadName(reply, at) == Some((name.0, at + 2));
    if |answerIp| == 4 { assert reply[at + 12..at + 16] == reply[at + 12..]; }
  }
}
