/**
  * The IPv4 header checksum, the packet builder and the packet parser
  * (section 3.1 of RFC 791, section 1 of RFC 1071).
  */
module Ipv4 {
  import opened Wrappers
  import opened LittleEndian

  datatype Protocol = ICMP | TCP | UDP | Unknown

  function ProtocolOf(b: Byte): Protocol {
    if b == 1 then ICMP else if b == 6 then TCP else if b == 17 then UDP else Unknown
  }

  function ProtocolByte(p: Protocol): Byte {
    match p case ICMP => 1 case TCP => 6 case UDP => 17 case Unknown => 0xFF
  }

  datatype Packet = Packet(
    version: nat, ihl: nat, dscp: nat, ecn: nat, totalLength: nat, identification: nat, flags: nat,
    fragmentOffset: nat, ttl: Byte, protocol: Protocol, checksum: nat,
    srcIp: seq<Byte>, dstIp: seq<Byte>, payload: seq<Byte>)

  /** The accumulator has 32 bits. */
  const SUM_LIMIT: nat := 0x1_0000_0000

  function Word(hi: Byte, lo: Byte): (w: nat)
    ensures w <= 65535 && w / 256 == hi && w % 256 == lo
  {
    hi * 256 + lo
  }

  /** The sum of the big-endian words; an odd last byte counts as the high half of a word. */
  function WordSum(h: seq<Byte>): nat {
    if h == [] then 0
    else if |h| == 1 then Word(h[0], 0)
    else Word(h[0], h[1]) + WordSum(h[2..])
  }

  /** Carries added back until the sum fits in 16 bits. */
  function Fold(sum: nat): nat {
    if sum < 65536 then sum else Fold(sum % 65536 + sum / 65536)
  }

  /** One step of folding takes off a multiple of 65535. */
  lemma FoldStep(sum: nat)
    requires sum >= 65536
    ensures sum % 65536 + sum / 65536 < sum
    ensures sum % 65536 + sum / 65536 > 0
    ensures (sum % 65536 + sum / 65536) % 65535 == sum % 65535
  {
    var q, r := sum / 65536, sum % 65536;
    assert sum == q * 65535 + (q + r);
    ModDrop(q + r, q);
  }

  lemma {:induction false} ModDrop(x: nat, k: nat)
    ensures (k * 65535 + x) % 65535 == x % 65535
    decreases k
  {
    if k > 0 {
      ModDrop(x, k - 1);
      assert k * 65535 + x == (k - 1) * 65535 + x + 65535;
    }
  }

  /** Folding keeps the sum modulo 65535, and keeps zero and non-zero apart. */
  lemma {:induction false} FoldKeepsResidue(sum: nat)
    ensures Fold(sum) <= 65535
    ensures Fold(sum) % 65535 == sum % 65535
    ensures Fold(sum) == 0 <==> sum == 0
    decreases sum
  {
    if sum >= 65536 {
      FoldStep(sum);
      FoldKeepsResidue(sum % 65536 + sum / 65536);
    }
  }

  lemma {:induction false} WordSumBound(h: seq<Byte>)
    ensures WordSum(h) <= 65535 * ((|h| + 1) / 2)
    decreases |h|
  {
    if |h| >= 2 {
      WordSumBound(h[2..]);
    }
  }

  lemma {:induction false} WordSumJoin(a: seq<Byte>, b: seq<Byte>)
    requires |a| % 2 == 0
    ensures WordSum(a + b) == WordSum(a) + WordSum(b)
    decreases |a|
  {
    if a == [] {
      assert a + b == b;
    } else {
      assert (a + b)[2..] == a[2..] + b;
      WordSumJoin(a[2..], b);
    }
  }

  /** The word a summing loop adds at an even index. */
  function WordAt(h: seq<Byte>, i: nat): nat
    requires i < |h|
  {
    if i + 1 < |h| then Word(h[i], h[i + 1]) else Word(h[i], 0)
  }

  lemma SumOneMore(h: seq<Byte>, i: nat, next: nat)
    requires i < |h| && i % 2 == 0 && next == if i + 2 <= |h| then i + 2 else |h|
    ensures WordSum(h[..next]) == WordSum(h[..i]) + WordAt(h, i)
  {
    var part := h[i..next];
    WordSumJoin(h[..i], part);
    assert h[..next] == h[..i] + part;
    if next == i + 2 {
      assert part[2..] == [];
    }
  }

  /** What is summed so far is at most the whole sum. */
  lemma PrefixFits(h: seq<Byte>, i: nat)
    requires i <= |h| && (i % 2 == 0 || i == |h|)
    ensures WordSum(h[..i]) <= WordSum(h)
    ensures i == 0 ==> WordSum(h[..i]) == 0
  {
    if i == |h| {
      assert h[..i] == h;
    } else {
      WordSumJoin(h[..i], h[i..]);
      assert h == h[..i] + h[i..];
    }
  }

  lemma HeaderFits(h: seq<Byte>)
    requires |h| <= 60
    ensures WordSum(h) < SUM_LIMIT
  {
    WordSumBound(h);
  }

  /** Folded to 16 bits, the complement is zero exactly on the positive multiples of 65535. */
  lemma ComplementZero(sum: nat)
    ensures Fold(sum) <= 65535
    ensures Fold(sum) == 65535 <==> sum > 0 && sum % 65535 == 0
  {
    FoldKeepsResidue(sum);
  }

  /** Sums the words with a 32-bit accumulator, folds the carries and complements. */
  method CalculateChecksum(header: seq<Byte>) returns (checksum: nat)
    requires WordSum(header) < SUM_LIMIT
    ensures checksum == 65535 - Fold(WordSum(header))
    ensures checksum <= 65535
    ensures checksum == 0 <==> WordSum(header) > 0 && WordSum(header) % 65535 == 0
  {
    hide WordSum, Word, WordAt;
    var sum, i := 0, 0;
    PrefixFits(header, 0);
    while i < |header|
      invariant 0 <= i <= |header| && (i % 2 == 0 || i == |header|)
      invariant sum == WordSum(header[..i]) && sum < SUM_LIMIT
    {
      var next := if i + 2 <= |header| then i + 2 else |header|;
      SumOneMore(header, i, next);
      PrefixFits(header, next);
      sum := sum + WordAt(header, i);
      i := next;
    }
    assert header[..i] == header;
    ghost var total := sum;
    ComplementZero(total);
    while sum / 65536 != 0
      invariant 0 <= sum < SUM_LIMIT && Fold(sum) == Fold(total)
      decreases sum
    {
      FoldStep(sum);
      sum := sum % 65536 + sum / 65536;
    }
    checksum := 65535 - sum;
  }

  method VerifyChecksum(header: seq<Byte>) returns (ok: bool)
    requires WordSum(header) < SUM_LIMIT
    ensures ok <==> WordSum(header) > 0 && WordSum(header) % 65535 == 0
  {
    var checksum := CalculateChecksum(header);
    ok := checksum == 0;
  }

  /** What a parser must accept, and what it must give back. */
  ghost predicate Accepted(data: seq<Byte>) {
    && |data| >= 20
    && data[0] / 16 == 4
    && |data| >= data[0] % 16 * 4
    && WordSum(data[..data[0] % 16 * 4]) > 0
    && WordSum(data[..data[0] % 16 * 4]) % 65535 == 0
  }

  /** What section 3.1 of RFC 791 asks for: the header has at least five words. */
  ghost predicate Standard(data: seq<Byte>) {
    Accepted(data) && data[0] % 16 >= 5
  }

  /** An accepted packet meets the standard exactly when its length field is not one to four. */
  lemma StandardIff(data: seq<Byte>)
    ensures Accepted(data) ==> (Standard(data) <==> !(1 <= data[0] % 16 <= 4))
  {
    if |data| >= 20 && data[0] % 16 == 0 {
      assert data[..0] == [];
    }
  }

  /** A header of one word that verifies is accepted, and the payload starts inside the fixed fields. */
  lemma ShortHeaderExample()
    ensures exists data: seq<Byte> :: Accepted(data) && !Standard(data) && Fields(data).payload == data[4..]
  {
    var data: seq<Byte> := [0x41, 0x00, 0xBE, 0xFF] + seq(16, _ => 0);
    var header, low := data[..4], [0xBE, 0xFF];
    assert header[2..] == low && low[2..] == [];
    assert WordSum(low[2..]) == 0;
    assert WordSum(low) == Word(0xBE, 0xFF) == 0xBEFF;
    assert WordSum(header) == Word(0x41, 0x00) + WordSum(low) == 0xFFFF;
    assert data[0] % 16 * 4 == 4;
    assert Accepted(data) && !Standard(data) && Fields(data).payload == data[4..];
  }

  ghost function Fields(data: seq<Byte>): Packet
    requires |data| >= 20 && |data| >= data[0] % 16 * 4
  {
    Packet(data[0] / 16, data[0] % 16, data[1] / 4, data[1] % 4, Word(data[2], data[3]), Word(data[4], data[5]),
           Word(data[6], data[7]) / 8192, Word(data[6], data[7]) % 8192, data[8], ProtocolOf(data[9]),
           Word(data[10], data[11]), data[12..16], data[16..20], data[data[0] % 16 * 4..])
  }

  /** A packet as it is sent: the fixed fields in network order, the addresses, the options and the payload. */
  ghost function Wire(p: Packet, protocol: Byte, options: seq<Byte>): seq<Byte>
    requires InRange(p)
  {
    [16 * p.version + p.ihl, 4 * p.dscp + p.ecn] + Big(p.totalLength) + Big(p.identification)
    + Big(8192 * p.flags + p.fragmentOffset) + [p.ttl, protocol] + Big(p.checksum)
    + p.srcIp + p.dstIp + options + p.payload
  }

  ghost function Big(w: nat): (s: seq<Byte>)
    requires w <= 65535
    ensures |s| == 2 && Word(s[0], s[1]) == w
  {
    [w / 256, w % 256]
  }

  /** The widths of the fields. */
  ghost predicate InRange(p: Packet) {
    && p.version < 16 && p.ihl < 16 && p.dscp < 64 && p.ecn < 4 && p.totalLength <= 65535 && p.identification <= 65535
    && p.flags < 8 && p.fragmentOffset < 8192 && p.checksum <= 65535 && |p.srcIp| == 4 && |p.dstIp| == 4
  }

  /** Every field of a packet is read from where it is sent. */
  lemma FieldsOfWire(p: Packet, protocol: Byte, options: seq<Byte>)
    requires InRange(p) && p.protocol == ProtocolOf(protocol) && 20 + |options| == p.ihl * 4
    ensures |Wire(p, protocol, options)| >= 20 && Wire(p, protocol, options)[0] % 16 == p.ihl
    ensures |Wire(p, protocol, options)| >= p.ihl * 4 && Fields(Wire(p, protocol, options)) == p
  {
    hide Word, ProtocolOf, Big;
    Halves(p.version, p.ihl, 16);
    Halves(p.dscp, p.ecn, 4);
    Halves(p.flags, p.fragmentOffset, 8192);
    WireFront(p, protocol, options);
    WireBack(p, protocol, options);
    hide Wire;
  }

  lemma Halves(high: nat, low: nat, size: nat)
    requires size in {4, 16, 8192} && low < size
    ensures (size * high + low) / size == high && (size * high + low) % size == low
  {
  }

  lemma WireFront(p: Packet, protocol: Byte, options: seq<Byte>)
    requires InRange(p)
    ensures var data := Wire(p, protocol, options);
            && |data| >= 20 && data[0] == 16 * p.version + p.ihl && data[1] == 4 * p.dscp + p.ecn
            && Word(data[2], data[3]) == p.totalLength && Word(data[4], data[5]) == p.identification
            && Word(data[6], data[7]) == 8192 * p.flags + p.fragmentOffset
            && data[8] == p.ttl && data[9] == protocol && Word(data[10], data[11]) == p.checksum
  {
    hide Word, Big;
    var data := Wire(p, protocol, options);
    assert data[2..4] == Big(p.totalLength) && data[4..6] == Big(p.identification);
    assert data[6..8] == Big(8192 * p.flags + p.fragmentOffset) && data[10..12] == Big(p.checksum);
  }

  lemma WireBack(p: Packet, protocol: Byte, options: seq<Byte>)
    requires InRange(p)
    ensures var data := Wire(p, protocol, options);
            && |data| == 20 + |options| + |p.payload|
            && data[12..16] == p.srcIp && data[16..20] == p.dstIp && data[20 + |options|..] == p.payload
  {
    hide Word, Big;
    var front := [16 * p.version + p.ihl, 4 * p.dscp + p.ecn] + Big(p.totalLength) + Big(p.identification)
      + Big(8192 * p.flags + p.fragmentOffset) + [p.ttl, protocol] + Big(p.checksum);
    assert |front| == 12 && Wire(p, protocol, options) == front + p.srcIp + p.dstIp + options + p.payload;
  }

  method Parse(data: seq<Byte>) returns (r: Option<Packet>)
    ensures r.Some? <==> Accepted(data)
    ensures r.Some? ==> r.value == Fields(data)
  {
    if |data| < 20 {
      return None;
    }
    var version, ihl := data[0] / 16, data[0] % 16;
    if version != 4 {
      return None;
    }
    var headerLen := ihl * 4;
    if |data| < headerLen {
      return None;
    }
    var dscp, ecn := data[1] / 4, data[1] % 4;
    var totalLength, identification := Word(data[2], data[3]), Word(data[4], data[5]);
    var flagsFrag := Word(data[6], data[7]);
    var flags, fragmentOffset := flagsFrag / 8192, flagsFrag % 8192;
    var ttl, protocol := data[8], ProtocolOf(data[9]);
    var checksum := Word(data[10], data[11]);
    var srcIp, dstIp := data[12..16], data[16..20];
    HeaderFits(data[..headerLen]);
    var ok := VerifyChecksum(data[..headerLen]);
    if !ok {
      return None;
    }
    return Some(Packet(version, ihl, dscp, ecn, totalLength, identification, flags, fragmentOffset, ttl, protocol,
                       checksum, srcIp, dstIp, data[headerLen..]));
  }

  /** The header of a built packet with a given checksum field. */
  ghost function Header(total: nat, protocol: Protocol, checksum: nat, src: seq<Byte>, dst: seq<Byte>): seq<Byte>
    requires total <= 65535 && checksum <= 65535
  {
    [0x45, 0x00, total / 256, total % 256, 0, 0, 0, 0, 64, ProtocolByte(protocol), checksum / 256, checksum % 256]
      + src + dst
  }

  lemma HeaderSum(total: nat, protocol: Protocol, checksum: nat, src: seq<Byte>, dst: seq<Byte>)
    requires total <= 65535 && checksum <= 65535
    ensures WordSum(Header(total, protocol, checksum, src, dst)) ==
            0x4500 + total + 64 * 256 + ProtocolByte(protocol) + checksum + WordSum(src + dst)
  {
    hide WordSum, ProtocolByte;
    var ttlProtocol := 64 * 256 + ProtocolByte(protocol);
    HeaderParts(total, protocol, checksum, src, dst);
    hide Header, Bytes;
    var first, second := Bytes(0x4500, total, 0), Bytes(0, ttlProtocol, checksum);
    ThreeWords(0x4500, total, 0);
    ThreeWords(0, ttlProtocol, checksum);
    WordSumJoin(first, second);
    WordSumJoin(first + second, src + dst);
  }

  lemma HeaderParts(total: nat, protocol: Protocol, checksum: nat, src: seq<Byte>, dst: seq<Byte>)
    requires total <= 65535 && checksum <= 65535
    ensures Header(total, protocol, checksum, src, dst)
            == Bytes(0x4500, total, 0) + Bytes(0, 64 * 256 + ProtocolByte(protocol), checksum) + (src + dst)
  {
    hide ProtocolByte;
    var b: nat := ProtocolByte(protocol);
    assert (64 * 256 + b) / 256 == 64 && (64 * 256 + b) % 256 == b;
  }

  /** Three words in network order. */
  ghost function Bytes(a: nat, b: nat, c: nat): (s: seq<Byte>)
    requires a <= 65535 && b <= 65535 && c <= 65535
    ensures |s| == 6
  {
    [a / 256, a % 256, b / 256, b % 256, c / 256, c % 256]
  }

  lemma ThreeWords(a: nat, b: nat, c: nat)
    requires a <= 65535 && b <= 65535 && c <= 65535
    ensures WordSum(Bytes(a, b, c)) == a + b + c
  {
    var h := Bytes(a, b, c);
    var tail := h[2..];
    var last := tail[2..];
    assert last[2..] == [];
    assert WordSum(last) == c;
    assert WordSum(tail) == b + WordSum(last);
  }

  /** The complement of the folded sum, put in the checksum field, makes the header verify. */
  lemma ComplementVerifies(total: nat, protocol: Protocol, src: seq<Byte>, dst: seq<Byte>)
    requires total <= 65535
    ensures var c := 65535 - Fold(WordSum(Header(total, protocol, 0, src, dst)));
            0 <= c <= 65535 &&
            var sum := WordSum(Header(total, protocol, c, src, dst)); sum > 0 && sum % 65535 == 0
  {
    hide WordSum, Header, Fold, ProtocolByte;
    var base := WordSum(Header(total, protocol, 0, src, dst));
    FoldKeepsResidue(base);
    var c := 65535 - Fold(base);
    HeaderSum(total, protocol, 0, src, dst);
    HeaderSum(total, protocol, c, src, dst);
    ComplementAdds(base, Fold(base));
  }

  lemma ComplementAdds(base: nat, folded: nat)
    requires folded <= 65535 && folded % 65535 == base % 65535 && (folded == 0 <==> base == 0)
    ensures (base + (65535 - folded)) % 65535 == 0
  {
    var q := base / 65535;
    assert base == q * 65535 + base % 65535;
    if folded == 65535 {
      ModDrop(0, q);
    } else {
      ModDrop(0, q + 1);
    }
  }

  /** The packet that `BuildPacket` puts in the buffer. */
  ghost predicate Built(p: Packet, src: seq<Byte>, dst: seq<Byte>, protocol: Protocol, payload: seq<Byte>) {
    && p.version == 4 && p.ihl == 5 && p.totalLength == 20 + |payload| && p.ttl == 64
    && p.dscp == 0 && p.ecn == 0 && p.identification == 0 && p.flags == 0 && p.fragmentOffset == 0
    && p.srcIp == src && p.dstIp == dst && p.protocol == protocol && p.payload == payload
  }

  lemma HeaderFields(protocol: Protocol, checksum: nat, src: seq<Byte>, dst: seq<Byte>, payload: seq<Byte>,
                     data: seq<Byte>)
    requires 20 + |payload| <= 65535 && checksum <= 65535 && |src| == 4 && |dst| == 4
    requires data == Header(20 + |payload|, protocol, checksum, src, dst) + payload
    ensures |data| == 20 + |payload| && data[0] == 0x45
    ensures data[..20] == Header(20 + |payload|, protocol, checksum, src, dst)
    ensures Built(Fields(data), src, dst, protocol, payload)
  {
    assert data[12..16] == src && data[16..20] == dst && data[20..] == payload;
  }

  lemma AcceptedIfVerifies(data: seq<Byte>)
    requires |data| >= 20 && data[0] == 0x45
    requires WordSum(data[..20]) > 0 && WordSum(data[..20]) % 65535 == 0
    ensures Accepted(data)
  {
  }

  lemma HeaderSize(total: nat, protocol: Protocol, checksum: nat, src: seq<Byte>, dst: seq<Byte>)
    requires total <= 65535 && checksum <= 65535 && |src| == 4 && |dst| == 4
    ensures |Header(total, protocol, checksum, src, dst)| == 20
  {
  }

  /** Writing the two checksum bytes into the finished buffer. */
  lemma ChecksumPatched(buffer: seq<Byte>, total: nat, protocol: Protocol, checksum: nat, src: seq<Byte>,
                        dst: seq<Byte>)
    requires total <= 65535 && checksum <= 65535 && |src| == 4 && |dst| == 4
    ensures |Header(total, protocol, 0, src, dst)| == 20
    ensures var at := |buffer| + 10;
            (buffer + Header(total, protocol, 0, src, dst))[at := checksum / 256][at + 1 := checksum % 256]
            == buffer + Header(total, protocol, checksum, src, dst)
  {
    hide ProtocolByte;
  }

  /** Appends a packet to the buffer, patching the checksum in once the header is there. */
  method BuildPacket(buffer: seq<Byte>, src: seq<Byte>, dst: seq<Byte>, protocol: Protocol, payload: seq<Byte>)
    returns (out: seq<Byte>, ok: bool)
    requires |src| == 4 && |dst| == 4
    ensures ok <==> 20 + |payload| <= 65535
    ensures !ok ==> out == buffer
    ensures ok ==> buffer <= out && |out| == |buffer| + 20 + |payload| && Accepted(out[|buffer|..])
    ensures ok ==> Built(Fields(out[|buffer|..]), src, dst, protocol, payload)
  {
    hide WordSum, Fold, Accepted, Built, Fields, ProtocolByte;
    out, ok := buffer, false;
    var total := 20 + |payload|;
    if total > 65535 {
      return;
    }
    out := out + [0x45, 0x00, total / 256, total % 256, 0, 0, 0, 0, 64, ProtocolByte(protocol)];
    var checksumPos := |out|;
    out := out + [0, 0] + src + dst;
    assert out == buffer + Header(total, protocol, 0, src, dst);
    hide Header;
    HeaderSize(total, protocol, 0, src, dst);
    assert out[|out| - 20..] == Header(total, protocol, 0, src, dst);
    HeaderFits(out[|out| - 20..]);
    var checksum := CalculateChecksum(out[|out| - 20..]);
    out := out[checksumPos := checksum / 256];
    out := out[checksumPos + 1 := checksum % 256];
    ComplementVerifies(total, protocol, src, dst);
    ChecksumPatched(buffer, total, protocol, checksum, src, dst);
    out := out + payload;
    ok := true;
    var data := out[|buffer|..];
    assert data == Header(total, protocol, checksum, src, dst) + payload;
    HeaderFields(protocol, checksum, src, dst, payload, data);
    AcceptedIfVerifies(data);
  }

  /** Parsing a built packet gives back what it was built from. */
  method BuildThenParse(src: seq<Byte>, dst: seq<Byte>, protocol: Protocol, payload: seq<Byte>)
    returns (r: Option<Packet>)
    requires |src| == 4 && |dst| == 4 && |payload| <= 65515
    ensures r.Some? && Built(r.value, src, dst, protocol, payload)
  {
    hide Accepted, Built, Fields, WordSum;
    var out, ok := BuildPacket([], src, dst, protocol, payload);
    assert out[0..] == out;
    r := Parse(out);
  }
}
