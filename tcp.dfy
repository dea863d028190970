/** The TCP segment builder of src/tcp.py: a fixed 20-byte header without
    options (RFC 793, section 3.1), a checksum over the caller's pseudo-header
    followed by the segment, and the derivation of an acknowledgement. */
module Tcp {
  import opened Common
  import opened Utils

  const DefaultWindowSize := 1500
  const HeaderLength := 20
  /** (header size // 4) << 4: data offset 5 in the high nibble, 0 below. */
  const DataOffsetByte := (HeaderLength / 4) * 16
  const ChecksumOffset := 16

  /** The flag arguments of the constructor; URG has none, it is always 0. */
  datatype Flags = Flags(cwr: bool, ece: bool, ack: bool, psh: bool, rst: bool, syn: bool, fin: bool)

  const NoFlags := Flags(false, false, false, false, false, false, false)
  const AckOnly := NoFlags.(ack := true)

  function Bit(b: bool, weight: nat): nat {
    if b then weight else 0
  }

  function Pow2(n: nat): nat {
    if n == 0 then 1 else 2 * Pow2(n - 1)
  }

  /** The flags BitStruct, most significant bit first: CWR ECE URG ACK PSH
      RST SYN FIN, with URG the constant False. */
  function FlagBits(f: Flags): seq<bool> {
    [f.cwr, f.ece, false, f.ack, f.psh, f.rst, f.syn, f.fin]
  }

  /** A BitStruct's packing: its bits as an unsigned number, most significant
      bit first. */
  function BitsValue(bs: seq<bool>): nat {
    if |bs| == 0 then 0 else Bit(bs[0], Pow2(|bs| - 1)) + BitsValue(bs[1..])
  }

  /** A reader's unpacking of the n low bits of b, most significant first. */
  function BitsOf(b: int, n: nat): (bs: seq<bool>)
    ensures |bs| == n
  {
    if n == 0 then []
    else
      var high := b >= Pow2(n - 1);
      [high] + BitsOf(b - Bit(high, Pow2(n - 1)), n - 1)
  }

  lemma {:induction false} BitsValueBound(bs: seq<bool>)
    ensures BitsValue(bs) < Pow2(|bs|)
  {
    if |bs| > 0 {
      BitsValueBound(bs[1..]);
    }
  }

  /** Unpacking a packed bit sequence gives it back. */
  lemma {:induction false} BitsRoundTrip(bs: seq<bool>)
    ensures BitsOf(BitsValue(bs), |bs|) == bs
  {
    if |bs| > 0 {
      var rest := bs[1..];
      BitsValueBound(rest);
      BitsRoundTrip(rest);
      assert [bs[0]] + rest == bs;
    }
  }

  /** The flags byte: FlagBits packed, one weight per flag. */
  function FlagsByte(f: Flags): Byte {
    Bit(f.cwr, 0x80) + Bit(f.ece, 0x40) + Bit(f.ack, 0x10) + Bit(f.psh, 0x08)
      + Bit(f.rst, 0x04) + Bit(f.syn, 0x02) + Bit(f.fin, 0x01)
  }

  /** The flags byte is the packing of the flag bits. */
  lemma FlagsBytePacksBits(f: Flags)
    ensures FlagsByte(f) == BitsValue(FlagBits(f))
  {
    var bs := FlagBits(f);
    assert BitsValue(bs[7..]) == Bit(f.fin, 0x01);
    assert BitsValue(bs[6..]) == Bit(f.syn, 0x02) + BitsValue(bs[7..]);
    assert BitsValue(bs[5..]) == Bit(f.rst, 0x04) + BitsValue(bs[6..]);
    assert BitsValue(bs[4..]) == Bit(f.psh, 0x08) + BitsValue(bs[5..]);
    assert BitsValue(bs[3..]) == Bit(f.ack, 0x10) + BitsValue(bs[4..]);
    assert BitsValue(bs[2..]) == BitsValue(bs[3..]);
    assert BitsValue(bs[1..]) == Bit(f.ece, 0x40) + BitsValue(bs[2..]);
    assert BitsValue(bs) == Bit(f.cwr, 0x80) + BitsValue(bs[1..]);
  }

  /** A receiver's reading of the flags byte; the second component is the
      URG bit. */
  function ParseFlags(b: Byte): (Flags, bool) {
    var bs := BitsOf(b, 8);
    (Flags(bs[0], bs[1], bs[3], bs[4], bs[5], bs[6], bs[7]), bs[2])
  }

  /** The state of a tcp.Packet (src/tcp.py:39-59). */
  datatype Segment = Segment(
    pseudoHeader: Bytes,
    sourcePort: int, destPort: int, seqNum: int, ackNum: int, window: int,
    flags: Flags,
    data: Bytes)

  /** Every integer field fits its width; construct raises otherwise. */
  predicate FieldsFit(s: Segment) {
    IsU16(s.sourcePort) && IsU16(s.destPort) && IsU32(s.seqNum) && IsU32(s.ackNum) && IsU16(s.window)
  }

  /** The first 16 header bytes (src/tcp.py:13-29), which do not depend on
      the checksum. */
  function Fixed(s: Segment): (h: Bytes)
    requires FieldsFit(s)
    ensures |h| == ChecksumOffset
  {
    BE16(s.sourcePort) + BE16(s.destPort) + BE32(s.seqNum) + BE32(s.ackNum)
      + [DataOffsetByte, FlagsByte(s.flags)] + BE16(s.window)
  }

  /** The header layout (src/tcp.py:13-32) with the given checksum; the
      urgent pointer is always 0. */
  function Header(s: Segment, checksum: int): (h: Bytes)
    requires FieldsFit(s) && IsU16(checksum)
    ensures |h| == HeaderLength
  {
    Fixed(s) + BE16(checksum) + BE16(0)
  }

  /** The checksum's input: the pseudo-header, then the segment with its
      checksum field zeroed. */
  function ChecksumInput(s: Segment): Bytes
    requires FieldsFit(s)
  {
    s.pseudoHeader + Header(s, 0) + s.data
  }

  /** Packet.build (src/tcp.py:71-99). */
  function BuildSegment(host: ByteOrder, s: Segment): (r: Result<Bytes>)
    ensures r.Ok? <==> FieldsFit(s)
    ensures r.Err? ==> r.error == FieldOverflow
    ensures r.Ok? ==> |r.value| == HeaderLength + |s.data|
  {
    if !FieldsFit(s) then Err(FieldOverflow)
    else Ok(Header(s, Checksum(host, ChecksumInput(s))) + s.data)
  }

  /** The acknowledgement number get_ack_response puts in its reply: the
      next sequence number after this segment. */
  function NextSeq(s: Segment): int {
    s.seqNum + (if s.flags.syn || s.flags.fin then 1 else 0) + |s.data|
  }

  /** Packet.get_ack_response(window=w) (src/tcp.py:64-69): ports swapped, the
      same sequence number, ACK only, no data and no pseudo-header. */
  function AckResponse(s: Segment, window: int): Segment {
    Segment([], s.destPort, s.sourcePort, s.seqNum, NextSeq(s), window, AckOnly, [])
  }

  /** The header fields as a receiver reads them. */
  datatype HeaderFields = HeaderFields(
    sourcePort: int, destPort: int, seqNum: int, ackNum: int,
    dataOffset: int, reservedBits: int,
    flags: Flags, urg: bool,
    window: int, checksum: int, urgentPointer: int)

  function ParseHeader(b: Bytes): HeaderFields
    requires |b| >= HeaderLength
  {
    HeaderFields(
      BE16At(b, 0), BE16At(b, 2), BE32At(b, 4), BE32At(b, 8),
      b[12] / 16, b[12] % 16,
      ParseFlags(b[13]).0, ParseFlags(b[13]).1,
      BE16At(b, 14), BE16At(b, 16), BE16At(b, 18))
  }

  /** Each flag has its own bit and the URG bit is never set. */
  lemma FlagsRoundTrip(f: Flags)
    ensures ParseFlags(FlagsByte(f)) == (f, false)
  {
    FlagsBytePacksBits(f);
    BitsRoundTrip(FlagBits(f));
  }

  lemma HeaderBytes(s: Segment, checksum: int)
    requires FieldsFit(s) && IsU16(checksum)
    ensures var h := Header(s, checksum);
            && BE16At(h, 0) == s.sourcePort && BE16At(h, 2) == s.destPort
            && BE32At(h, 4) == s.seqNum && BE32At(h, 8) == s.ackNum
            && h[12] == DataOffsetByte && h[13] == FlagsByte(s.flags)
            && BE16At(h, 14) == s.window && BE16At(h, 16) == checksum && BE16At(h, 18) == 0
  {
    var h := Header(s, checksum);
    var sp, dp, sq, ak := BE16(s.sourcePort), BE16(s.destPort), BE32(s.seqNum), BE32(s.ackNum);
    var w, c, u := BE16(s.window), BE16(checksum), BE16(0);
    assert h[0] == sp[0] && h[1] == sp[1] && h[2] == dp[0] && h[3] == dp[1];
    assert h[4] == sq[0] && h[5] == sq[1] && h[6] == sq[2] && h[7] == sq[3];
    assert h[8] == ak[0] && h[9] == ak[1] && h[10] == ak[2] && h[11] == ak[3];
    assert h[14] == w[0] && h[15] == w[1] && h[16] == c[0] && h[17] == c[1];
    assert h[18] == u[0] && h[19] == u[1];
    assert BE32At(h, 4) == BE32At(sq, 0);
    assert BE32At(h, 8) == BE32At(ak, 0);
  }

  /** A reader looks at the first 20 bytes only. */
  lemma ParseHeaderPrefix(h: Bytes, rest: Bytes)
    requires |h| == HeaderLength
    ensures ParseHeader(h + rest) == ParseHeader(h)
  {
    var b := h + rest;
    assert BE16At(b, 0) == BE16At(h, 0) && BE16At(b, 2) == BE16At(h, 2);
    assert BE16At(b, 4) == BE16At(h, 4) && BE16At(b, 6) == BE16At(h, 6);
    assert BE16At(b, 8) == BE16At(h, 8) && BE16At(b, 10) == BE16At(h, 10);
  }

  /** Reading a header back gives its fields, data offset 5 and the flags
      with URG clear. */
  lemma HeaderParsed(s: Segment, checksum: int)
    requires FieldsFit(s) && IsU16(checksum)
    ensures ParseHeader(Header(s, checksum)) == HeaderFields(
              s.sourcePort, s.destPort, s.seqNum, s.ackNum, 5, 0,
              s.flags, false, s.window, checksum, 0)
  {
    HeaderBytes(s, checksum);
    FlagsRoundTrip(s.flags);
  }

  /** Reading a built segment back: the ports, sequence and acknowledgement
      numbers, data offset 5, the flags with URG clear, the window, the
      checksum of pseudo-header ++ zero-checksum segment, urgent pointer 0,
      and then the data. */
  lemma SegmentLayout(host: ByteOrder, s: Segment)
    requires FieldsFit(s)
    ensures var b := BuildSegment(host, s).value;
            && ParseHeader(b) == HeaderFields(
                 s.sourcePort, s.destPort, s.seqNum, s.ackNum, 5, 0,
                 s.flags, false,
                 s.window, Checksum(host, ChecksumInput(s)), 0)
            && b[HeaderLength..] == s.data
  {
    var c := Checksum(host, ChecksumInput(s));
    var h := Header(s, c);
    HeaderParsed(s, c);
    ParseHeaderPrefix(h, s.data);
    assert BuildSegment(host, s).value == h + s.data;
  }

  /** On a big-endian host, with a pseudo-header of even length, the stored
      checksum verifies over pseudo-header ++ segment. */
  lemma SegmentChecksumVerifies(s: Segment)
    requires FieldsFit(s) && |s.pseudoHeader| % 2 == 0
    ensures InternetChecksum(s.pseudoHeader + BuildSegment(BigEndian, s).value) == 0
  {
    var x, z, c := Fixed(s), BE16(0), Checksum(BigEndian, ChecksumInput(s));
    Regroup(s.pseudoHeader, x, z, z, s.data);
    Regroup(s.pseudoHeader, x, BE16(c), z, s.data);
    ChecksumPatchVerifies(s.pseudoHeader + x, z + s.data);
  }

  /** set_pseudo_header changes the checksum and nothing else: two builds that
      differ only in the pseudo-header agree outside bytes [16:18). */
  lemma PseudoHeaderOnlyAffectsChecksum(host: ByteOrder, s: Segment, pseudoHeader: Bytes)
    requires FieldsFit(s)
    ensures var a := BuildSegment(host, s).value;
            var b := BuildSegment(host, s.(pseudoHeader := pseudoHeader)).value;
            && |a| == |b|
            && a[..ChecksumOffset] == b[..ChecksumOffset]
            && a[ChecksumOffset + 2..] == b[ChecksumOffset + 2..]
  {
    var s' := s.(pseudoHeader := pseudoHeader);
    BuildSegmentParts(host, s);
    BuildSegmentParts(host, s');
    assert Fixed(s') == Fixed(s);
    SameOutside(Fixed(s), BE16(Checksum(host, ChecksumInput(s))), BE16(Checksum(host, ChecksumInput(s'))),
                BE16(0) + s.data);
  }

  /** A built segment is the fixed header bytes, the checksum, then the
      urgent pointer and the data. */
  lemma BuildSegmentParts(host: ByteOrder, s: Segment)
    requires FieldsFit(s)
    ensures BuildSegment(host, s).value == Fixed(s) + BE16(Checksum(host, ChecksumInput(s))) + (BE16(0) + s.data)
  {
    var c := Checksum(host, ChecksumInput(s));
    assert Fixed(s) + BE16(c) + BE16(0) + s.data == Fixed(s) + BE16(c) + (BE16(0) + s.data);
  }

  /** The reply get_ack_response derives acknowledges the data, plus one for
      SYN or FIN; it builds exactly when that number still fits 32 bits (it is
      not reduced modulo 2^32) and the window fits 16 bits. */
  lemma AckResponseBuild(host: ByteOrder, s: Segment, window: int)
    requires FieldsFit(s)
    ensures !s.flags.syn && !s.flags.fin ==> AckResponse(s, window).ackNum == s.seqNum + |s.data|
    ensures (s.flags.syn || s.flags.fin) && s.data == [] ==> AckResponse(s, window).ackNum == s.seqNum + 1
    ensures BuildSegment(host, AckResponse(s, window)).Ok? <==> IsU32(NextSeq(s)) && IsU16(window)
    ensures BuildSegment(host, AckResponse(s, window)).Ok? ==>
              var b := BuildSegment(host, AckResponse(s, window)).value;
              && |b| == HeaderLength
              && ParseHeader(b).sourcePort == s.destPort && ParseHeader(b).destPort == s.sourcePort
              && ParseHeader(b).seqNum == s.seqNum && ParseHeader(b).ackNum == NextSeq(s)
              && ParseHeader(b).flags == AckOnly && ParseHeader(b).window == window
  {
    if IsU32(NextSeq(s)) && IsU16(window) {
      SegmentLayout(host, AckResponse(s, window));
    }
  }

  /** A tcp.Packet object; set_pseudo_header updates it in place. */
  class Packet {
    var pseudoHeaderData: Bytes
    var sourcePort: int
    var destPort: int
    var seqNum: int
    var ackNum: int
    var window: int
    var flags: Flags
    var data: Bytes

    function Value(): Segment
      reads this
    {
      Segment(pseudoHeaderData, sourcePort, destPort, seqNum, ackNum, window, flags, data)
    }

    constructor (s: Segment)
      ensures Value() == s
    {
      pseudoHeaderData := s.pseudoHeader;
      sourcePort, destPort, seqNum, ackNum := s.sourcePort, s.destPort, s.seqNum, s.ackNum;
      window, flags, data := s.window, s.flags, s.data;
    }

    /** Packet.set_pseudo_header (src/tcp.py:61-62). */
    method SetPseudoHeader(rawPseudoHeader: Bytes)
      modifies this
      ensures Value() == old(Value()).(pseudoHeader := rawPseudoHeader)
    {
      pseudoHeaderData := rawPseudoHeader;
    }

    /** Packet.get_ack_response(**kwargs) (src/tcp.py:64-69); the only keyword
        argument the source passes is the window, which defaults to 1500. The
        original segment is not modified. */
    method GetAckResponse(window: Option<int>) returns (r: Packet)
      ensures fresh(r)
      ensures r.Value() == AckResponse(Value(), window.GetOr(DefaultWindowSize))
    {
      r := new Packet(AckResponse(Value(), window.GetOr(DefaultWindowSize)));
    }

    /** Packet.build on the current field values. */
    function Build(host: ByteOrder): (r: Result<Bytes>)
      reads this
      ensures r == BuildSegment(host, Value())
    {
      BuildSegment(host, Value())
    }

    /** build on this object succeeds exactly when its fields fit, and the
        result reads back as these fields, data offset 5, the checksum over
        pseudo-header and segment, then the data. */
    lemma BuildReadsBack(host: ByteOrder)
      ensures Build(host).Ok? <==> FieldsFit(Value())
      ensures Build(host).Ok? ==>
                && ParseHeader(Build(host).value) == HeaderFields(
                     sourcePort, destPort, seqNum, ackNum, 5, 0, flags, false,
                     window, Checksum(host, ChecksumInput(Value())), 0)
                && Build(host).value[HeaderLength..] == data
    {
      if FieldsFit(Value()) {
        SegmentLayout(host, Value());
      }
    }
  }
}
