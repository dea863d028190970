/** TCP over IPv4 (src/tcpipv4.py): an IPv4 packet carrying a TCP segment whose
    checksum covers a pseudo-header cut out of the IPv4 header, and the
    acknowledgement packet derived from it. The pseudo-header is bytes [12:20)
    of the built IPv4 header, that is the two addresses; the protocol and TCP
    length words of RFC 793, section 3.1, are not part of it. */
module TcpIpv4 {
  import opened Common
  import opened Utils
  import Ipv4
  import Tcp

  const IpProtocolTcp := 6
  const PseudoHeaderStart := 12
  const PseudoHeaderEnd := 20
  /** get_ack_packet's default remote_window. */
  const DefaultRemoteWindow := 0

  /** Packet._ipv4_pseudo_header (src/tcpipv4.py:13-15): a slice of the
      built IPv4 packet. */
  function PseudoHeaderOf(host: ByteOrder, d: Ipv4.Datagram): (r: Result<Bytes>)
    ensures r.Ok? <==> Ipv4.FieldsFit(d)
    ensures r.Ok? ==> r.value == d.sourceAddress + d.destAddress
  {
    var built :- Ipv4.BuildDatagram(host, d);
    Ipv4.AddressesAt12(host, d);
    Ok(built[PseudoHeaderStart..PseudoHeaderEnd])
  }

  /** The arguments of the tcpipv4.Packet constructor. */
  datatype Params = Params(
    sourceIp: Ipv4.Address, sourcePort: int,
    destIp: Ipv4.Address, destPort: int,
    identification: int, ttl: int,
    seqNum: int, ackNum: int, window: int,
    flags: Tcp.Flags,
    data: Bytes)

  /** The state of a tcpipv4.Packet: its IPv4 packet and its TCP packet. */
  datatype Stack = Stack(ip: Ipv4.Datagram, tcp: Tcp.Segment)

  /** The TCP segment the parameters describe, with the given pseudo-header. */
  function SegmentOf(p: Params, pseudoHeader: Bytes): Tcp.Segment {
    Tcp.Segment(pseudoHeader, p.sourcePort, p.destPort, p.seqNum, p.ackNum, p.window, p.flags, p.data)
  }

  /** The segment built first to size the IPv4 packet: every field at its
      default, with the real data. */
  function ProvisionalSegment(data: Bytes): Tcp.Segment {
    Tcp.Segment([], 0, 0, 0, 0, Tcp.DefaultWindowSize, Tcp.NoFlags, data)
  }

  /** The constructor (src/tcpipv4.py:17-38). The IPv4 packet is constructed,
      and so checked against the MTU, around the provisional segment; the
      real segment takes the pseudo-header from it and then replaces its
      payload. */
  function Compose(host: ByteOrder, p: Params): Result<Stack> {
    var provisional :- Tcp.BuildSegment(host, ProvisionalSegment(p.data));
    var ip :- Ipv4.Construct(host, Ipv4.Datagram(p.sourceIp, p.destIp, p.identification, p.ttl, IpProtocolTcp, provisional));
    var pseudoHeader :- PseudoHeaderOf(host, ip);
    var tcp := SegmentOf(p, pseudoHeader);
    var segment :- Tcp.BuildSegment(host, tcp);
    Ok(Stack(ip.(data := segment), tcp))
  }

  /** Packet.get_ack_packet(remote_window) (src/tcpipv4.py:40-59): the TCP
      acknowledgement wrapped for the packet's addresses. */
  function AckStack(host: ByteOrder, st: Stack, remoteWindow: int): Result<Stack> {
    Reply(host, st.ip, Tcp.AckResponse(st.tcp, remoteWindow))
  }

  /** The reply get_ack_packet builds around the segment ack
      (src/tcpipv4.py:43-58): an IPv4 packet with the addresses of ip swapped
      and its identification and TTL, sized and checked around ack without a
      pseudo-header, which ack then receives from it. */
  function Reply(host: ByteOrder, ip: Ipv4.Datagram, ack: Tcp.Segment): Result<Stack> {
    var first :- Tcp.BuildSegment(host, ack);
    var ipAck :- Ipv4.Construct(host, Ipv4.Datagram(ip.destAddress, ip.sourceAddress,
                                                   ip.identification, ip.ttl, IpProtocolTcp, first));
    var pseudoHeader :- PseudoHeaderOf(host, ipAck);
    var tcp := ack.(pseudoHeader := pseudoHeader);
    var segment :- Tcp.BuildSegment(host, tcp);
    Ok(Stack(ipAck.(data := segment), tcp))
  }

  /** Packet.build (src/tcpipv4.py:61-62). */
  function BuildStack(host: ByteOrder, st: Stack): Result<Bytes> {
    Ipv4.BuildDatagram(host, st.ip)
  }

  predicate IpFieldsFit(p: Params) {
    IsU16(p.identification) && IsU8(p.ttl) && IsU16(Ipv4.HeaderLength + Tcp.HeaderLength + |p.data|)
  }

  predicate TcpFieldsFit(p: Params) {
    IsU16(p.sourcePort) && IsU16(p.destPort) && IsU32(p.seqNum) && IsU32(p.ackNum) && IsU16(p.window)
  }

  /** Construction succeeds exactly when the IPv4 fields fit, the whole packet
      fits the MTU and the TCP fields fit. The IPv4 packet is constructed
      first, so its errors come first: an overflowing IPv4 field or length
      before the MTU, the MTU before an overflowing TCP field. */
  lemma ComposeResult(host: ByteOrder, p: Params)
    ensures var r := Compose(host, p);
            && (r.Ok? <==> IpFieldsFit(p) && Ipv4.HeaderLength + Tcp.HeaderLength + |p.data| <= Ipv4.TypicalMtu && TcpFieldsFit(p))
            && (!IpFieldsFit(p) ==> r == Err(FieldOverflow))
            && (IpFieldsFit(p) && Ipv4.HeaderLength + Tcp.HeaderLength + |p.data| > Ipv4.TypicalMtu ==> r == Err(MtuExceeded))
            && (r.Err? ==> r.error == FieldOverflow || r.error == MtuExceeded)
  {
    assert Tcp.FieldsFit(ProvisionalSegment(p.data));
    assert Tcp.FieldsFit(SegmentOf(p, [])) <==> TcpFieldsFit(p);
  }

  /** A constructed packet: an IPv4 packet of 40 + |data| bytes with protocol
      6 from the given addresses, whose payload is the TCP segment built with
      the given fields and the two addresses as pseudo-header. */
  lemma ComposeLayout(host: ByteOrder, p: Params)
    requires Compose(host, p).Ok?
    ensures var st := Compose(host, p).value;
            && st.tcp == SegmentOf(p, p.sourceIp + p.destIp)
            && st.ip.sourceAddress == p.sourceIp && st.ip.destAddress == p.destIp
            && st.ip.identification == p.identification && st.ip.ttl == p.ttl
            && st.ip.protocol == IpProtocolTcp
            && BuildStack(host, st).Ok?
            && var b := BuildStack(host, st).value;
               && |b| == Ipv4.HeaderLength + Tcp.HeaderLength + |p.data| <= Ipv4.TypicalMtu
               && Ipv4.ParseHeader(b).totalLength == |b|
               && Ipv4.ParseHeader(b).protocol == IpProtocolTcp
               && b[Ipv4.HeaderLength..] == Tcp.BuildSegment(host, st.tcp).value
  {
    ComposeResult(host, p);
    var st := Compose(host, p).value;
    assert Ipv4.FieldsFit(st.ip);
    Ipv4.BuildLayout(host, st.ip);
  }

  /** On a big-endian host both checksums of a constructed packet verify: the
      IPv4 header's, and the TCP segment's over the addresses followed by the
      segment. */
  lemma ComposeChecksums(p: Params)
    requires Compose(BigEndian, p).Ok?
    ensures var b := BuildStack(BigEndian, Compose(BigEndian, p).value).value;
            && InternetChecksum(b[..Ipv4.HeaderLength]) == 0
            && InternetChecksum(p.sourceIp + p.destIp + b[Ipv4.HeaderLength..]) == 0
  {
    ComposeLayout(BigEndian, p);
    var st := Compose(BigEndian, p).value;
    Ipv4.HeaderChecksumVerifies(st.ip);
    Tcp.SegmentChecksumVerifies(st.tcp);
  }

  /** A constructed packet builds: its IPv4 fields were checked around a
      provisional payload as long as the real one. */
  lemma ComposedBuilds(host: ByteOrder, p: Params)
    requires Compose(host, p).Ok?
    ensures BuildStack(host, Compose(host, p).value).Ok?
  {
  }

  /** So does an acknowledgement. */
  lemma AckBuilds(host: ByteOrder, st: Stack, remoteWindow: int)
    requires AckStack(host, st, remoteWindow).Ok?
    ensures BuildStack(host, AckStack(host, st, remoteWindow).value).Ok?
  {
  }

  /** The acknowledgement of any packet state: it exists exactly when the
      reply's TCP fields and the identification and TTL fit; it swaps the
      addresses and takes the swapped addresses as pseudo-header. */
  lemma AckStackOf(host: ByteOrder, st: Stack, remoteWindow: int)
    ensures var r := AckStack(host, st, remoteWindow);
            && (r.Ok? <==> Tcp.FieldsFit(Tcp.AckResponse(st.tcp, remoteWindow))
                           && IsU16(st.ip.identification) && IsU8(st.ip.ttl))
            && (r.Err? ==> r.error == FieldOverflow)
            && (r.Ok? ==>
                  && r.value.ip.sourceAddress == st.ip.destAddress && r.value.ip.destAddress == st.ip.sourceAddress
                  && r.value.ip.identification == st.ip.identification && r.value.ip.ttl == st.ip.ttl
                  && r.value.ip.protocol == IpProtocolTcp
                  && r.value.tcp == Tcp.AckResponse(st.tcp, remoteWindow).(pseudoHeader := st.ip.destAddress + st.ip.sourceAddress))
  {
  }

  /** The acknowledgement of a constructed packet exists exactly when the
      acknowledgement number fits 32 bits and the remote window 16 bits (its
      IPv4 packet is 40 bytes, so the MTU never refuses it). It is sent back
      from the destination to the source, with the same identification and
      TTL, the ports swapped, the same sequence number, the ACK flag alone, no
      data, and the swapped addresses as pseudo-header. */
  lemma AckOfComposed(host: ByteOrder, p: Params, remoteWindow: int)
    requires Compose(host, p).Ok?
    ensures var st := Compose(host, p).value;
            var r := AckStack(host, st, remoteWindow);
            && (r.Ok? <==> IsU32(Tcp.NextSeq(st.tcp)) && IsU16(remoteWindow))
            && (r.Err? ==> r.error == FieldOverflow)
            && (r.Ok? ==>
                  && r.value.ip.sourceAddress == p.destIp && r.value.ip.destAddress == p.sourceIp
                  && r.value.ip.identification == p.identification && r.value.ip.ttl == p.ttl
                  && r.value.ip.protocol == IpProtocolTcp
                  && r.value.tcp == Tcp.AckResponse(st.tcp, remoteWindow).(pseudoHeader := p.destIp + p.sourceIp)
                  && r.value.tcp.ackNum == p.seqNum + (if p.flags.syn || p.flags.fin then 1 else 0) + |p.data|)
  {
    ComposeLayout(host, p);
    AckStackOf(host, Compose(host, p).value, remoteWindow);
  }

  /** An acknowledgement is 40 bytes of IPv4 and TCP headers, its payload the
      TCP segment built from its fields. */
  lemma AckLayout(host: ByteOrder, st: Stack, remoteWindow: int)
    requires AckStack(host, st, remoteWindow).Ok?
    ensures var ack := AckStack(host, st, remoteWindow).value;
            && BuildStack(host, ack).Ok?
            && |BuildStack(host, ack).value| == Ipv4.HeaderLength + Tcp.HeaderLength
            && BuildStack(host, ack).value[Ipv4.HeaderLength..] == Tcp.BuildSegment(host, ack.tcp).value
  {
    var ack := AckStack(host, st, remoteWindow).value;
    assert Ipv4.FieldsFit(ack.ip);
    Ipv4.BuildLayout(host, ack.ip);
  }

  /** On a big-endian host both checksums of the acknowledgement verify. */
  lemma AckChecksums(p: Params, remoteWindow: int)
    requires Compose(BigEndian, p).Ok?
    requires AckStack(BigEndian, Compose(BigEndian, p).value, remoteWindow).Ok?
    ensures var b := BuildStack(BigEndian, AckStack(BigEndian, Compose(BigEndian, p).value, remoteWindow).value).value;
            && InternetChecksum(b[..Ipv4.HeaderLength]) == 0
            && InternetChecksum(p.destIp + p.sourceIp + b[Ipv4.HeaderLength..]) == 0
  {
    AckOfComposed(BigEndian, p, remoteWindow);
    AckLayout(BigEndian, Compose(BigEndian, p).value, remoteWindow);
    var ack := AckStack(BigEndian, Compose(BigEndian, p).value, remoteWindow).value;
    assert Ipv4.FieldsFit(ack.ip);
    Ipv4.HeaderChecksumVerifies(ack.ip);
    Tcp.SegmentChecksumVerifies(ack.tcp);
  }

  /** A tcpipv4.Packet object, holding its two layers. */
  class Packet {
    var ipPacket: Ipv4.Packet
    var tcpPacket: Tcp.Packet

    function State(): Stack
      reads this, ipPacket, tcpPacket
    {
      Stack(ipPacket.Value(), tcpPacket.Value())
    }

    /** get_ack_packet's placeholder Packet("0.0.0.0", 0, ...) whose two
        layers are then replaced (src/tcpipv4.py:56-58), as one step. */
    constructor FromParts(ip: Ipv4.Packet, tcp: Tcp.Packet)
      ensures ipPacket == ip && tcpPacket == tcp
    {
      ipPacket, tcpPacket := ip, tcp;
    }

    /** Packet.build on the current state. */
    function Build(host: ByteOrder): (r: Result<Bytes>)
      reads this, ipPacket, tcpPacket
      ensures r == BuildStack(host, State())
    {
      ipPacket.Build(host)
    }

    /** build is the IPv4 packet's build: it succeeds exactly when the IPv4
        fields fit, and reads back with the IPv4 packet's addresses and
        protocol, a total length equal to its own length, and the IPv4
        payload (for a constructed packet, the TCP segment: ComposeLayout)
        after the header. */
    lemma BuildReadsBack(host: ByteOrder)
      ensures Build(host).Ok? <==> Ipv4.FieldsFit(ipPacket.Value())
      ensures Build(host).Ok? ==>
                && Ipv4.ParseHeader(Build(host).value).sourceAddress == ipPacket.sourceAddress
                && Ipv4.ParseHeader(Build(host).value).destAddress == ipPacket.destAddress
                && Ipv4.ParseHeader(Build(host).value).protocol == ipPacket.protocol
                && Ipv4.ParseHeader(Build(host).value).totalLength == |Build(host).value|
                && Build(host).value[Ipv4.HeaderLength..] == ipPacket.data
    {
      ipPacket.BuildReadsBack(host);
    }

    /** Packet.get_ack_packet (src/tcpipv4.py:40-59); this packet is not
        changed. */
    method GetAckPacket(host: ByteOrder, remoteWindow: Option<int>) returns (r: Result<Packet>)
      ensures var a := AckStack(host, State(), remoteWindow.GetOr(DefaultRemoteWindow));
              && (r.Ok? <==> a.Ok?)
              && (r.Err? ==> r.error == a.error)
              && (r.Ok? ==> fresh(r.value) && fresh(r.value.ipPacket) && fresh(r.value.tcpPacket)
                            && r.value.State() == a.value)
    {
      var tcpAck := tcpPacket.GetAckResponse(Some(remoteWindow.GetOr(DefaultRemoteWindow)));
      r := CreateReply(host, ipPacket.Value(), tcpAck);
    }
  }

  /** The body of get_ack_packet after get_ack_response (src/tcpipv4.py:43-58),
      on the segment object tcpAck, whose pseudo-header it sets. */
  method CreateReply(host: ByteOrder, ip: Ipv4.Datagram, tcpAck: Tcp.Packet) returns (r: Result<Packet>)
    modifies tcpAck
    ensures var a := Reply(host, ip, old(tcpAck.Value()));
            && (r.Ok? <==> a.Ok?)
            && (r.Err? ==> r.error == a.error)
            && (r.Ok? ==> fresh(r.value) && fresh(r.value.ipPacket) && r.value.tcpPacket == tcpAck
                          && r.value.State() == a.value)
    ensures r.Err? ==> tcpAck.Value() == old(tcpAck.Value())
  {
    var first := tcpAck.Build(host);
    if first.Err? {
      return Err(first.error);
    }
    var ipCreated := Ipv4.Create(host, ip.destAddress, ip.sourceAddress,
                                 ip.identification, ip.ttl, IpProtocolTcp, first.value);
    if ipCreated.Err? {
      return Err(ipCreated.error);
    }
    var ipAck := ipCreated.value;
    var pseudoHeader := PseudoHeaderOf(host, ipAck.Value());
    tcpAck.SetPseudoHeader(pseudoHeader.value);
    var segment := tcpAck.Build(host);
    assert segment.Ok?;
    ipAck.data := segment.value;
    var result := new Packet.FromParts(ipAck, tcpAck);
    return Ok(result);
  }

  /** tcpipv4.Packet(...): the object, or the exception its constructor raises. */
  method Create(host: ByteOrder, p: Params) returns (r: Result<Packet>)
    ensures r.Ok? <==> Compose(host, p).Ok?
    ensures r.Err? ==> r.error == Compose(host, p).error
    ensures r.Ok? ==> fresh(r.value) && fresh(r.value.ipPacket) && fresh(r.value.tcpPacket)
                      && r.value.State() == Compose(host, p).value
  {
    var provisional := new Tcp.Packet(ProvisionalSegment(p.data));
    var provisionalBytes := provisional.Build(host);
    assert provisionalBytes.Ok?;
    var ip := Ipv4.Create(host, p.sourceIp, p.destIp, p.identification, p.ttl, IpProtocolTcp, provisionalBytes.value);
    if ip.Err? {
      assert Compose(host, p) == Err(ip.error);
      return Err(ip.error);
    }
    var ipPacket := ip.value;
    var pseudoHeader := PseudoHeaderOf(host, ipPacket.Value());
    var tcpPacket := new Tcp.Packet(SegmentOf(p, pseudoHeader.value));
    var segment := tcpPacket.Build(host);
    if segment.Err? {
      assert Compose(host, p) == Err(segment.error);
      return Err(segment.error);
    }
    ghost var composed := Stack(ipPacket.Value().(data := segment.value), tcpPacket.Value());
    assert Compose(host, p) == Ok(composed);
    ipPacket.data := segment.value;
    assert ipPacket.Value() == composed.ip && tcpPacket.Value() == composed.tcp;
    var result := new Packet.FromParts(ipPacket, tcpPacket);
    return Ok(result);
  }
}
