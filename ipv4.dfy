/** The IPv4 packet builder of src/ipv4.py: a fixed 20-byte header without
    options (RFC 791, section 3.1), its checksum over the header alone, and
    the refusal of packets longer than the typical MTU. */
module Ipv4 {
  import opened Common
  import opened Utils

  const TypicalMtu := 1500
  const HeaderLength := 20
  const VersionIhl := 0x45     // version 4, header length 5 words
  const FlagsFragment := 0x40  // reserved 0, DF 1, MF 0, fragment offset 0 (high byte)

  /** An IPv4 address in its packed form; dotted-quad parsing is not modelled. */
  type Address = a: Bytes | |a| == 4 witness [0, 0, 0, 0]

  /** The state of an ipv4.Packet (src/ipv4.py:42-49). */
  datatype Datagram = Datagram(
    sourceAddress: Address, destAddress: Address,
    identification: int, ttl: int, protocol: int,
    data: Bytes)

  /** The header layout (src/ipv4.py:15-35) with the given field values. */
  function Header(totalLength: int, identification: int, ttl: int, protocol: int,
                  checksum: int, source: Address, dest: Address): (h: Bytes)
    requires IsU16(totalLength) && IsU16(identification) && IsU8(ttl) && IsU8(protocol)
    requires IsU16(checksum)
    ensures |h| == HeaderLength
  {
    [VersionIhl, 0x00] + BE16(totalLength) + BE16(identification)
      + [FlagsFragment, 0x00, ttl, protocol] + BE16(checksum) + source + dest
  }

  /** Every field the layout encodes fits its width; construct raises otherwise. */
  predicate FieldsFit(d: Datagram) {
    IsU16(d.identification) && IsU8(d.ttl) && IsU8(d.protocol) && IsU16(HeaderLength + |d.data|)
  }

  /** The header with its checksum field zeroed, the checksum's input. */
  function ZeroedHeader(d: Datagram): (h: Bytes)
    requires FieldsFit(d)
    ensures |h| == HeaderLength
    ensures h[10] == 0 && h[11] == 0
  {
    Header(HeaderLength + |d.data|, d.identification, d.ttl, d.protocol, 0, d.sourceAddress, d.destAddress)
  }

  /** Packet.build (src/ipv4.py:54-74): total_length is the length of the
      whole packet, the checksum covers the header only. */
  function BuildDatagram(host: ByteOrder, d: Datagram): (r: Result<Bytes>)
    ensures r.Ok? <==> FieldsFit(d)
    ensures r.Err? ==> r.error == FieldOverflow
    ensures r.Ok? ==> |r.value| == HeaderLength + |d.data|
  {
    if !FieldsFit(d) then Err(FieldOverflow)
    else
      var checksum := Checksum(host, ZeroedHeader(d));
      Ok(Header(HeaderLength + |d.data|, d.identification, d.ttl, d.protocol, checksum,
                d.sourceAddress, d.destAddress) + d.data)
  }

  /** Construction (src/ipv4.py:42-52): the packet is built once, and a packet
      longer than the MTU is refused. */
  function Construct(host: ByteOrder, d: Datagram): (r: Result<Datagram>)
    ensures r.Ok? <==> FieldsFit(d) && HeaderLength + |d.data| <= TypicalMtu
    ensures r.Err? ==> r.error == if FieldsFit(d) then MtuExceeded else FieldOverflow
    ensures r.Ok? ==> r.value == d
  {
    var built :- BuildDatagram(host, d);
    if |built| > TypicalMtu then Err(MtuExceeded) else Ok(d)
  }

  /** The header fields as a receiver reads them. */
  datatype HeaderFields = HeaderFields(
    version: int, ihl: int, tos: int, totalLength: int, identification: int,
    reserved: bool, df: bool, mf: bool, fragmentOffset: int,
    ttl: int, protocol: int, checksum: int,
    sourceAddress: Address, destAddress: Address)

  function ParseHeader(b: Bytes): HeaderFields
    requires |b| >= HeaderLength
  {
    HeaderFields(
      b[0] / 16, b[0] % 16, b[1], BE16At(b, 2), BE16At(b, 4),
      b[6] / 0x80 == 1, (b[6] / 0x40) % 2 == 1, (b[6] / 0x20) % 2 == 1,
      (b[6] as int % 0x20) * 0x100 + b[7],
      b[8], b[9], BE16At(b, 10),
      b[12..16], b[16..20])
  }

  lemma HeaderBytes(totalLength: int, identification: int, ttl: int, protocol: int,
                    checksum: int, source: Address, dest: Address)
    requires IsU16(totalLength) && IsU16(identification) && IsU8(ttl) && IsU8(protocol)
    requires IsU16(checksum)
    ensures var h := Header(totalLength, identification, ttl, protocol, checksum, source, dest);
            && h[0] == VersionIhl && h[1] == 0 && BE16At(h, 2) == totalLength
            && BE16At(h, 4) == identification && h[6] == FlagsFragment && h[7] == 0
            && h[8] == ttl && h[9] == protocol && BE16At(h, 10) == checksum
            && h[..10] == [VersionIhl, 0x00] + BE16(totalLength) + BE16(identification)
                          + [FlagsFragment, 0x00, ttl, protocol]
            && h[12..16] == source && h[16..20] == dest && h[12..] == source + dest
  {
    var h := Header(totalLength, identification, ttl, protocol, checksum, source, dest);
    var a := BE16(totalLength);
    var b := BE16(identification);
    var c := BE16(checksum);
    assert h[2] == a[0] && h[3] == a[1];
    assert h[4] == b[0] && h[5] == b[1];
    assert h[10] == c[0] && h[11] == c[1];
  }

  /** Reading a header back gives the constant fields of the layout (version
      4, IHL 5, TOS 0, DF set, MF clear, offset 0) and the stored ones. */
  lemma HeaderParsed(totalLength: int, identification: int, ttl: int, protocol: int,
                     checksum: int, source: Address, dest: Address)
    requires IsU16(totalLength) && IsU16(identification) && IsU8(ttl) && IsU8(protocol)
    requires IsU16(checksum)
    ensures ParseHeader(Header(totalLength, identification, ttl, protocol, checksum, source, dest))
         == HeaderFields(4, 5, 0, totalLength, identification, false, true, false, 0,
                         ttl, protocol, checksum, source, dest)
  {
    HeaderBytes(totalLength, identification, ttl, protocol, checksum, source, dest);
  }

  /** A reader looks at the first 20 bytes only. */
  lemma ParseHeaderPrefix(h: Bytes, rest: Bytes)
    requires |h| == HeaderLength
    ensures ParseHeader(h + rest) == ParseHeader(h)
  {
    var b := h + rest;
    assert b[12..16] == h[12..16] && b[16..20] == h[16..20];
  }

  /** Reading a built packet back gives the constant fields of the layout, the
      stored ones, total_length = 20 + |data|, the header checksum, and then
      the payload. */
  lemma BuildLayout(host: ByteOrder, d: Datagram)
    requires FieldsFit(d)
    ensures var b := BuildDatagram(host, d).value;
            && ParseHeader(b) == HeaderFields(
                 4, 5, 0, HeaderLength + |d.data|, d.identification,
                 false, true, false, 0,
                 d.ttl, d.protocol, Checksum(host, ZeroedHeader(d)),
                 d.sourceAddress, d.destAddress)
            && b[HeaderLength..] == d.data
  {
    var c := Checksum(host, ZeroedHeader(d));
    var h := Header(HeaderLength + |d.data|, d.identification, d.ttl, d.protocol, c, d.sourceAddress, d.destAddress);
    HeaderParsed(HeaderLength + |d.data|, d.identification, d.ttl, d.protocol, c, d.sourceAddress, d.destAddress);
    ParseHeaderPrefix(h, d.data);
    assert BuildDatagram(host, d).value == h + d.data;
  }

  /** Bytes [12:20) of a built packet are the source address followed by the
      destination address. */
  lemma AddressesAt12(host: ByteOrder, d: Datagram)
    requires FieldsFit(d)
    ensures BuildDatagram(host, d).value[12..20] == d.sourceAddress + d.destAddress
  {
    BuildLayout(host, d);
    var b := BuildDatagram(host, d).value;
    assert b[12..20] == b[12..16] + b[16..20];
  }

  /** The checksum leaves the payload out: two packets that differ only in
      payload bytes, not in length, have the same header. */
  lemma ChecksumCoversHeaderOnly(host: ByteOrder, d: Datagram, payload: Bytes)
    requires FieldsFit(d) && |payload| == |d.data|
    ensures BuildDatagram(host, d.(data := payload)).value[..HeaderLength]
         == BuildDatagram(host, d).value[..HeaderLength]
  {
    var d' := d.(data := payload);
    assert ZeroedHeader(d') == ZeroedHeader(d);
  }

  /** On a big-endian host the stored header checksum verifies: the Internet
      checksum of the built header is 0. */
  lemma HeaderChecksumVerifies(d: Datagram)
    requires FieldsFit(d)
    ensures InternetChecksum(BuildDatagram(BigEndian, d).value[..HeaderLength]) == 0
  {
    var z := ZeroedHeader(d);
    var c := Checksum(BigEndian, z);
    var len := HeaderLength + |d.data|;
    HeaderBytes(len, d.identification, d.ttl, d.protocol, 0, d.sourceAddress, d.destAddress);
    HeaderBytes(len, d.identification, d.ttl, d.protocol, c, d.sourceAddress, d.destAddress);
    var h := Header(len, d.identification, d.ttl, d.protocol, c, d.sourceAddress, d.destAddress);
    assert h == z[..10] + BE16(c) + z[12..];
    assert z[10] == 0 && z[11] == 0;
    ChecksumSelfVerifies(z, 5);
    assert BuildDatagram(BigEndian, d).value[..HeaderLength] == h;
  }

  /** An ipv4.Packet object. Its payload field is reassigned from outside
      (src/tcpipv4.py:38, 54), so it is a mutable field. */
  class Packet {
    var sourceAddress: Address
    var destAddress: Address
    var identification: int
    var ttl: int
    var protocol: int
    var data: Bytes

    function Value(): Datagram
      reads this
    {
      Datagram(sourceAddress, destAddress, identification, ttl, protocol, data)
    }

    constructor (d: Datagram)
      ensures Value() == d
    {
      sourceAddress, destAddress := d.sourceAddress, d.destAddress;
      identification, ttl, protocol := d.identification, d.ttl, d.protocol;
      data := d.data;
    }

    /** Packet.build on the current field values. */
    function Build(host: ByteOrder): (r: Result<Bytes>)
      reads this
      ensures r == BuildDatagram(host, Value())
    {
      BuildDatagram(host, Value())
    }

    /** build on this object succeeds exactly when its fields fit, and the
        result reads back as the header of these fields (total length
        20 + |data|, the header checksum) followed by the data. */
    lemma BuildReadsBack(host: ByteOrder)
      ensures Build(host).Ok? <==> FieldsFit(Value())
      ensures Build(host).Ok? ==>
                && ParseHeader(Build(host).value) == HeaderFields(
                     4, 5, 0, HeaderLength + |data|, identification,
                     false, true, false, 0,
                     ttl, protocol, Checksum(host, ZeroedHeader(Value())),
                     sourceAddress, destAddress)
                && Build(host).value[HeaderLength..] == data
    {
      if FieldsFit(Value()) {
        BuildLayout(host, Value());
      }
    }
  }

  /** ipv4.Packet(source, dest, identification, ttl, protocol, data): the
      object, or the exception its constructor raises. */
  method Create(host: ByteOrder, source: Address, dest: Address, identification: int,
                ttl: int, protocol: int, data: Bytes) returns (r: Result<Packet>)
    ensures var d := Datagram(source, dest, identification, ttl, protocol, data);
            && (r.Ok? <==> Construct(host, d).Ok?)
            && (r.Err? ==> r.error == Construct(host, d).error)
            && (r.Ok? ==> fresh(r.value) && r.value.Value() == d)
  {
    var p := new Packet(Datagram(source, dest, identification, ttl, protocol, data));
    var built := p.Build(host);
    if built.Err? {
      return Err(built.error);
    }
    if |built.value| > TypicalMtu {
      return Err(MtuExceeded);
    }
    return Ok(p);
  }
}
