/** The conversation simulator of src/main.py: per ordered pair of entities an
    IPv4 identification and a TCP sequence counter, two Ethernet frames (the
    message and its acknowledgement) per message, and the capture built from
    the simulated records. */
module Conversation {
  import opened Common
  import opened Utils
  import Mac
  import Ipv4
  import Tcp
  import TcpIpv4
  import Simulation
  import Pcap

  const DefaultTtl := 64
  const IpIdLimit := 0x1_0000
  const SeqLimit := 0x1_0000_0000

  /** A NetworkEntity (src/main.py:20-25), its address already packed. */
  datatype NetworkEntity = NetworkEntity(mac: string, ip: Ipv4.Address, port: int, window: int)

  /** A directed pair (sender, target) of entity names. */
  type Key = (string, string)

  function Pairs(a: set<string>, b: set<string>): set<Key> {
    set x, y | x in a && y in b :: (x, y)
  }

  /** What _create_packet_pair returns: the two Ethernet packets and the
      acknowledgement number of the reply. */
  datatype PacketPair = PacketPair(frame: Mac.Packet, ackFrame: Mac.Packet, ackNum: int)

  /** The jitter readings one simulate_data call takes. */
  datatype Readings = Readings(ping: int, bps: int)

  /** Every key _create_packet_pair looks up is present. */
  predicate Known(entities: map<string, NetworkEntity>, ipIds: map<Key, int>, seqNums: map<Key, int>,
                  sender: string, target: string)
  {
    && (sender, target) in ipIds && (sender, target) in seqNums && (target, sender) in seqNums
    && sender in entities && target in entities
  }

  /** The tcpipv4.Packet arguments of the message (src/main.py:54-61): the
      sender's counters, the target's sequence number as acknowledgement, the
      sender's window, no flags. */
  function ForwardParams(entities: map<string, NetworkEntity>, ipIds: map<Key, int>, seqNums: map<Key, int>,
                         sender: string, target: string, data: Bytes): TcpIpv4.Params
    requires Known(entities, ipIds, seqNums, sender, target)
  {
    var s, t := entities[sender], entities[target];
    TcpIpv4.Params(s.ip, s.port, t.ip, t.port, ipIds[(sender, target)], DefaultTtl,
                   seqNums[(sender, target)], seqNums[(target, sender)], s.window, Tcp.NoFlags, data)
  }

  /** ConvSimulation._create_packet_pair (src/main.py:46-69). */
  function PacketPairOf(host: ByteOrder, entities: map<string, NetworkEntity>, ipIds: map<Key, int>,
                        seqNums: map<Key, int>, sender: string, target: string, data: Bytes): Result<PacketPair>
  {
    if !Known(entities, ipIds, seqNums, sender, target) then Err(UnknownEntity)
    else
      var p := ForwardParams(entities, ipIds, seqNums, sender, target, data);
      var s, t := entities[sender], entities[target];
      var st :- TcpIpv4.Compose(host, p);
      var ack :- TcpIpv4.AckStack(host, st, t.window);
      TcpIpv4.ComposedBuilds(host, p);
      TcpIpv4.AckBuilds(host, st, t.window);
      Ok(PacketPair(
        Mac.Packet(s.mac, t.mac, Mac.Ipv4EtherType, TcpIpv4.BuildStack(host, st).value),
        Mac.Packet(t.mac, s.mac, Mac.Ipv4EtherType, TcpIpv4.BuildStack(host, ack).value),
        ack.tcp.ackNum))
  }

  /** The two frames simulate_message records and the acknowledgement number
      it commits (src/main.py:71-75). */
  function MessageFrames(host: ByteOrder, entities: map<string, NetworkEntity>, ipIds: map<Key, int>,
                         seqNums: map<Key, int>, sender: string, target: string, data: Bytes): Result<(Bytes, Bytes, int)>
  {
    var pair :- PacketPairOf(host, entities, ipIds, seqNums, sender, target, data);
    var frame :- Mac.BuildFrame(pair.frame);
    Mac.ReversedFrameBuilds(pair.frame, pair.ackFrame);
    Ok((frame, Mac.BuildFrame(pair.ackFrame).value, pair.ackNum))
  }

  /** A message can be sent exactly when both entities and their counters are
      known, the sender's identification fits 16 bits, the packet fits the
      MTU, the ports, counters and windows fit their fields, and the next
      sequence number still fits 32 bits. */
  lemma PacketPairResult(host: ByteOrder, entities: map<string, NetworkEntity>, ipIds: map<Key, int>,
                         seqNums: map<Key, int>, sender: string, target: string, data: Bytes)
    ensures var r := PacketPairOf(host, entities, ipIds, seqNums, sender, target, data);
            && (!Known(entities, ipIds, seqNums, sender, target) ==> r == Err(UnknownEntity))
            && (Known(entities, ipIds, seqNums, sender, target) ==>
                  var p := ForwardParams(entities, ipIds, seqNums, sender, target, data);
                  (r.Ok? <==> && TcpIpv4.IpFieldsFit(p) && TcpIpv4.TcpFieldsFit(p)
                              && Ipv4.HeaderLength + Tcp.HeaderLength + |data| <= Ipv4.TypicalMtu
                              && IsU32(seqNums[(sender, target)] + |data|)
                              && IsU16(entities[target].window)))
  {
    if Known(entities, ipIds, seqNums, sender, target) {
      var p := ForwardParams(entities, ipIds, seqNums, sender, target, data);
      var st := TcpIpv4.Compose(host, p);
      TcpIpv4.ComposeResult(host, p);
      if st.Ok? {
        var ack := TcpIpv4.AckStack(host, st.value, entities[target].window);
        TcpIpv4.AckOfComposed(host, p, entities[target].window);
        assert PacketPairOf(host, entities, ipIds, seqNums, sender, target, data).Ok? <==> ack.Ok?;
      } else {
        assert PacketPairOf(host, entities, ipIds, seqNums, sender, target, data).Err?;
      }
    }
  }

  /** The pair of a message that can be sent: its entities and counters are
      known, the identification fits 16 bits, and the acknowledgement number
      is the sender's sequence number advanced by the data length. */
  lemma PacketPairCounters(host: ByteOrder, entities: map<string, NetworkEntity>, ipIds: map<Key, int>,
                           seqNums: map<Key, int>, sender: string, target: string, data: Bytes)
    requires PacketPairOf(host, entities, ipIds, seqNums, sender, target, data).Ok?
    ensures Known(entities, ipIds, seqNums, sender, target)
    ensures IsU16(ipIds[(sender, target)])
    ensures var r := PacketPairOf(host, entities, ipIds, seqNums, sender, target, data).value;
            r.ackNum == seqNums[(sender, target)] + |data| && IsU32(r.ackNum)
  {
    var p := ForwardParams(entities, ipIds, seqNums, sender, target, data);
    var t := entities[target];
    var st := TcpIpv4.Compose(host, p).value;
    var ack := TcpIpv4.AckStack(host, st, t.window).value;
    TcpIpv4.ComposeResult(host, p);
    TcpIpv4.AckOfComposed(host, p, t.window);
    assert PacketPairOf(host, entities, ipIds, seqNums, sender, target, data).value.ackNum == ack.tcp.ackNum;
  }

  /** The frames of a message that can be sent go from the sender to the
      target and back, with ethertype 0x0800; the forward frame carries the
      tcpipv4 packet of the sender's counters, the other one its
      acknowledgement for the target's window. */
  lemma PacketPairFrames(host: ByteOrder, entities: map<string, NetworkEntity>, ipIds: map<Key, int>,
                         seqNums: map<Key, int>, sender: string, target: string, data: Bytes)
    requires PacketPairOf(host, entities, ipIds, seqNums, sender, target, data).Ok?
    ensures Known(entities, ipIds, seqNums, sender, target)
    ensures var r := PacketPairOf(host, entities, ipIds, seqNums, sender, target, data).value;
            && r.frame.sourceMac == entities[sender].mac && r.frame.destMac == entities[target].mac
            && r.ackFrame.sourceMac == entities[target].mac && r.ackFrame.destMac == entities[sender].mac
            && r.frame.etherType == r.ackFrame.etherType == Mac.Ipv4EtherType
    ensures var st := TcpIpv4.Compose(host, ForwardParams(entities, ipIds, seqNums, sender, target, data));
            && st.Ok? && TcpIpv4.BuildStack(host, st.value).Ok?
            && PacketPairOf(host, entities, ipIds, seqNums, sender, target, data).value.frame.data
               == TcpIpv4.BuildStack(host, st.value).value
    ensures var st := TcpIpv4.Compose(host, ForwardParams(entities, ipIds, seqNums, sender, target, data));
            var ack := TcpIpv4.AckStack(host, st.value, entities[target].window);
            && ack.Ok? && TcpIpv4.BuildStack(host, ack.value).Ok?
            && PacketPairOf(host, entities, ipIds, seqNums, sender, target, data).value.ackFrame.data
               == TcpIpv4.BuildStack(host, ack.value).value
  {
    var p := ForwardParams(entities, ipIds, seqNums, sender, target, data);
    var s, t := entities[sender], entities[target];
    var st := TcpIpv4.Compose(host, p).value;
    var ack := TcpIpv4.AckStack(host, st, t.window).value;
    TcpIpv4.ComposedBuilds(host, p);
    TcpIpv4.AckBuilds(host, st, t.window);
    assert PacketPairOf(host, entities, ipIds, seqNums, sender, target, data).value
        == PacketPair(Mac.Packet(s.mac, t.mac, Mac.Ipv4EtherType, TcpIpv4.BuildStack(host, st).value),
                      Mac.Packet(t.mac, s.mac, Mac.Ipv4EtherType, TcpIpv4.BuildStack(host, ack).value),
                      ack.tcp.ackNum);
  }

  /** The counters a message that can be sent commits stay in range. */
  lemma CommitBounds(host: ByteOrder, entities: map<string, NetworkEntity>, ipIds: map<Key, int>,
                     seqNums: map<Key, int>, sender: string, target: string, data: Bytes)
    requires PacketPairOf(host, entities, ipIds, seqNums, sender, target, data).Ok?
    ensures (sender, target) in ipIds && (sender, target) in seqNums
    ensures sender in entities && target in entities
    ensures ipIds[(sender, target)] < IpIdLimit
    ensures var ackNum := PacketPairOf(host, entities, ipIds, seqNums, sender, target, data).value.ackNum;
            seqNums[(sender, target)] <= ackNum < SeqLimit
  {
    PacketPairCounters(host, entities, ipIds, seqNums, sender, target, data);
  }

  /** MessageFrames in terms of its two steps: the pair and the forward frame
      can fail, the reversed frame then cannot. */
  lemma MessageFramesOf(host: ByteOrder, entities: map<string, NetworkEntity>, ipIds: map<Key, int>,
                        seqNums: map<Key, int>, sender: string, target: string, data: Bytes)
    ensures var pair := PacketPairOf(host, entities, ipIds, seqNums, sender, target, data);
            var m := MessageFrames(host, entities, ipIds, seqNums, sender, target, data);
            && (pair.Err? ==> m == Err(pair.error))
            && (pair.Ok? && Mac.BuildFrame(pair.value.frame).Err? ==> m == Err(Mac.BuildFrame(pair.value.frame).error))
            && (pair.Ok? && Mac.BuildFrame(pair.value.frame).Ok? ==>
                  && Mac.BuildFrame(pair.value.ackFrame).Ok?
                  && m == Ok((Mac.BuildFrame(pair.value.frame).value, Mac.BuildFrame(pair.value.ackFrame).value, pair.value.ackNum)))
  {
    var pair := PacketPairOf(host, entities, ipIds, seqNums, sender, target, data);
    if pair.Ok? {
      Mac.ReversedFrameBuilds(pair.value.frame, pair.value.ackFrame);
    }
  }

  /** A message that can be sent commits the sender's sequence number
      advanced by the data length. */
  lemma MessageCommits(host: ByteOrder, entities: map<string, NetworkEntity>, ipIds: map<Key, int>,
                       seqNums: map<Key, int>, sender: string, target: string, data: Bytes)
    requires MessageFrames(host, entities, ipIds, seqNums, sender, target, data).Ok?
    ensures (sender, target) in seqNums
    ensures MessageFrames(host, entities, ipIds, seqNums, sender, target, data).value.2
         == seqNums[(sender, target)] + |data|
  {
    MessageFramesOf(host, entities, ipIds, seqNums, sender, target, data);
    PacketPairCounters(host, entities, ipIds, seqNums, sender, target, data);
  }

  /** The change simulate_message makes for the frames m of a message from
      key.0 to key.1: none when they cannot be built; otherwise the message is
      recorded after the delay and its acknowledgement as soon as the message
      has been transferred, then the sender's identification grows by one and
      its sequence number becomes the acknowledged one. */
  predicate Sent(m: Result<(Bytes, Bytes, int)>, key: Key, delay: int, forward: Readings, reply: Readings,
                 records0: seq<Simulation.Record>, time0: int, ipIds0: map<Key, int>, seqNums0: map<Key, int>,
                 records: seq<Simulation.Record>, time: int, ipIds: map<Key, int>, seqNums: map<Key, int>)
    requires forward.bps > 0 && reply.bps > 0
  {
    if m.Err? then records == records0 && time == time0 && ipIds == ipIds0 && seqNums == seqNums0
    else
      var sent := Simulation.Advance(time0, delay, forward.ping, forward.bps, |m.value.0|);
      && records == records0 + [Simulation.Record(time0 + delay, m.value.0), Simulation.Record(sent, m.value.1)]
      && time == Simulation.Advance(sent, 0, reply.ping, reply.bps, |m.value.1|)
      && key in ipIds0 && ipIds == ipIds0[key := ipIds0[key] + 1]
      && seqNums == seqNums0[key := m.value.2]
  }

  /** The records of a capture built from the simulation records, in order. */
  function PcapRecords(rs: seq<Simulation.Record>): (ps: seq<Pcap.Record>)
    ensures |ps| == |rs|
    ensures forall i | 0 <= i < |rs| :: ps[i] == Pcap.RecordOf(rs[i].timestamp, rs[i].data)
  {
    if |rs| == 0 then [] else PcapRecords(rs[..|rs| - 1]) + [Pcap.RecordOf(rs[|rs| - 1].timestamp, rs[|rs| - 1].data)]
  }

  /** A capture of records stamped from the epoch on and before 2^32 seconds,
      each shorter than 2^32 bytes, builds. */
  lemma CaptureBuilds(rs: seq<Simulation.Record>)
    requires forall i | 0 <= i < |rs| :: 0 <= rs[i].timestamp < 0x1_0000_0000 * Pcap.MsPerSecond && IsU32(|rs[i].data|)
    ensures Pcap.BuildCapture(Pcap.LinktypeEthernet, PcapRecords(rs)).Ok?
  {
    var ps := PcapRecords(rs);
    forall i | 0 <= i < |ps| ensures Pcap.Encodable(ps[i]) {
      Pcap.RecordOfEncodable(rs[i].timestamp, rs[i].data);
    }
    Pcap.CaptureLength(Pcap.LinktypeEthernet, ps);
  }

  /** A ConvSimulation object; the Simulation it extends is its field sim. */
  class ConvSimulation {
    const host: ByteOrder
    const sim: Simulation.Simulator
    const entities: map<string, NetworkEntity>
    var ipIds: map<Key, int>
    var seqNums: map<Key, int>

    /** Both counter maps have exactly the ordered pairs of entities as keys;
        the identifications stay within [1, 2^16] and the sequence numbers
        within [1, 2^32). */
    predicate Valid()
      reads this
    {
      && ipIds.Keys == Pairs(entities.Keys, entities.Keys)
      && seqNums.Keys == Pairs(entities.Keys, entities.Keys)
      && (forall k | k in ipIds :: 1 <= ipIds[k] <= IpIdLimit)
      && (forall k | k in seqNums :: 1 <= seqNums[k] < SeqLimit)
    }

    /** ConvSimulation(start_timestamp, ping_ms, ping_deviation_ms, entities)
        (src/main.py:34-44); the values randint draws are the given initial
        maps, within randint's ranges. */
    constructor (host: ByteOrder, startTimestamp: int, pingMs: int, pingDeviationMs: int,
                 entities: map<string, NetworkEntity>, initialIpIds: map<Key, int>, initialSeqNums: map<Key, int>)
      requires Pairs(entities.Keys, entities.Keys) <= initialIpIds.Keys
      requires Pairs(entities.Keys, entities.Keys) <= initialSeqNums.Keys
      requires forall k | k in Pairs(entities.Keys, entities.Keys) :: 1 <= initialIpIds[k] < IpIdLimit
      requires forall k | k in Pairs(entities.Keys, entities.Keys) :: 1 <= initialSeqNums[k] < SeqLimit
      ensures Valid()
      ensures this.host == host && this.entities == entities
      ensures forall k | k in ipIds :: ipIds[k] == initialIpIds[k]
      ensures forall k | k in seqNums :: seqNums[k] == initialSeqNums[k]
      ensures fresh(sim) && sim.time == startTimestamp && sim.records == []
      ensures sim.pingMs == pingMs && sim.pingDeviationMs == pingDeviationMs
    {
      this.host := host;
      this.entities := entities;
      var ids, seqs := InitialCounters(entities.Keys, initialIpIds, initialSeqNums);
      ipIds, seqNums := ids, seqs;
      sim := new Simulation.Simulator(startTimestamp, pingMs, pingDeviationMs);
    }

    /** _create_packet_pair (src/main.py:46-69): reads the counters, changes
        nothing. */
    method CreatePacketPair(sender: string, target: string, data: Bytes) returns (r: Result<PacketPair>)
      ensures r == PacketPairOf(host, entities, ipIds, seqNums, sender, target, data)
    {
      if !Known(entities, ipIds, seqNums, sender, target) {
        return Err(UnknownEntity);
      }
      var p := ForwardParams(entities, ipIds, seqNums, sender, target, data);
      var s, t := entities[sender], entities[target];
      var packet := TcpIpv4.Create(host, p);
      if packet.Err? {
        return Err(packet.error);
      }
      var ackPacket := packet.value.GetAckPacket(host, Some(t.window));
      if ackPacket.Err? {
        return Err(ackPacket.error);
      }
      var ackNum := ackPacket.value.tcpPacket.ackNum;
      TcpIpv4.ComposedBuilds(host, p);
      TcpIpv4.AckBuilds(host, packet.value.State(), t.window);
      var forward := packet.value.Build(host);
      var reply := ackPacket.value.Build(host);
      return Ok(PacketPair(
        Mac.Packet(s.mac, t.mac, Mac.Ipv4EtherType, forward.value),
        Mac.Packet(t.mac, s.mac, Mac.Ipv4EtherType, reply.value),
        ackNum));
    }

    /** simulate_message(sender, target, data, delay) (src/main.py:71-78):
        both frames are built before anything is recorded; on an error
        nothing changes. */
    method SimulateMessage(sender: string, target: string, data: Bytes, delay: int,
                           forward: Readings, reply: Readings) returns (r: Result<()>)
      requires Valid() && forward.bps > 0 && reply.bps > 0
      modifies this, sim
      ensures Valid()
      ensures var m := MessageFrames(host, entities, old(ipIds), old(seqNums), sender, target, data);
              && (r.Ok? <==> m.Ok?) && (r.Err? ==> r.error == m.error)
              && Sent(m, (sender, target), delay, forward, reply,
                      old(sim.records), old(sim.time), old(ipIds), old(seqNums),
                      sim.records, sim.time, ipIds, seqNums)
      ensures delay >= 0 && forward.ping >= 0 && reply.ping >= 0 && old(Simulation.Chronological(sim.records, sim.time))
              ==> Simulation.Chronological(sim.records, sim.time)
    {
      var m := Frames(sender, target, data);
      if m.Err? {
        return Err(m.error);
      }
      Apply(m, (sender, target), delay, forward, reply);
      return Ok(());
    }

    /** The two simulate_data calls and the counter updates of
        simulate_message (src/main.py:74-78). */
    method Apply(m: Result<(Bytes, Bytes, int)>, key: Key, delay: int, forward: Readings, reply: Readings)
      requires Valid() && forward.bps > 0 && reply.bps > 0 && m.Ok?
      requires key in Pairs(entities.Keys, entities.Keys) && ipIds[key] < IpIdLimit && 1 <= m.value.2 < SeqLimit
      modifies this, sim
      ensures Valid()
      ensures Sent(m, key, delay, forward, reply, old(sim.records), old(sim.time), old(ipIds), old(seqNums),
                   sim.records, sim.time, ipIds, seqNums)
      ensures delay >= 0 && forward.ping >= 0 && reply.ping >= 0 && old(Simulation.Chronological(sim.records, sim.time))
              ==> Simulation.Chronological(sim.records, sim.time)
    {
      RecordBoth(m.value.0, m.value.1, delay, forward, reply);
      Commit(key, m.value.2);
    }

    /** The frames of simulate_message and the acknowledgement number it
        commits, computed before anything changes (src/main.py:72-73). */
    method Frames(sender: string, target: string, data: Bytes) returns (m: Result<(Bytes, Bytes, int)>)
      requires Valid()
      ensures m == MessageFrames(host, entities, ipIds, seqNums, sender, target, data)
      ensures m.Ok? ==> && (sender, target) in Pairs(entities.Keys, entities.Keys)
                        && ipIds[(sender, target)] < IpIdLimit && 1 <= m.value.2 < SeqLimit
    {
      MessageFramesOf(host, entities, ipIds, seqNums, sender, target, data);
      var pair := CreatePacketPair(sender, target, data);
      if pair.Err? {
        return Err(pair.error);
      }
      var frame := Mac.BuildFrame(pair.value.frame);
      if frame.Err? {
        return Err(frame.error);
      }
      CommitBounds(host, entities, ipIds, seqNums, sender, target, data);
      var ackFrame := Mac.BuildFrame(pair.value.ackFrame);
      assert (sender, target) in Pairs(entities.Keys, entities.Keys);
      return Ok((frame.value, ackFrame.value, pair.value.ackNum));
    }

    /** The two simulate_data calls of simulate_message (src/main.py:74-75). */
    method RecordBoth(frame: Bytes, ackFrame: Bytes, delay: int, forward: Readings, reply: Readings)
      requires forward.bps > 0 && reply.bps > 0
      modifies sim
      ensures var sent := Simulation.Advance(old(sim.time), delay, forward.ping, forward.bps, |frame|);
              && sim.records == old(sim.records) + [Simulation.Record(old(sim.time) + delay, frame),
                                                    Simulation.Record(sent, ackFrame)]
              && sim.time == Simulation.Advance(sent, 0, reply.ping, reply.bps, |ackFrame|)
      ensures delay >= 0 && forward.ping >= 0 && reply.ping >= 0 && old(Simulation.Chronological(sim.records, sim.time))
              ==> Simulation.Chronological(sim.records, sim.time)
    {
      sim.SimulateData(frame, delay, forward.ping, forward.bps);
      sim.SimulateData(ackFrame, 0, reply.ping, reply.bps);
    }

    /** The counter updates of simulate_message (src/main.py:77-78). */
    method Commit(key: Key, ackNum: int)
      requires Valid() && key in Pairs(entities.Keys, entities.Keys)
      requires ipIds[key] < IpIdLimit && 1 <= ackNum < SeqLimit
      modifies this
      ensures Valid()
      ensures ipIds == old(ipIds)[key := old(ipIds)[key] + 1] && seqNums == old(seqNums)[key := ackNum]
    {
      ipIds := ipIds[key := ipIds[key] + 1];
      seqNums := seqNums[key := ackNum];
    }

    /** to_pcap (src/main.py:80-85): one capture record per simulation
        record, in order, with the Ethernet link type. */
    method ToPcap() returns (capture: Pcap.Capture)
      ensures fresh(capture) && capture.linkType == Pcap.LinktypeEthernet
      ensures capture.records == PcapRecords(sim.records)
    {
      capture := new Pcap.Capture(None);
      var rs := sim.Records();
      assert rs == sim.records;
      for i := 0 to |rs|
        invariant capture.records == PcapRecords(rs[..i])
      {
        capture.AddRecord(rs[i].timestamp, rs[i].data);
        assert rs[..i + 1][..i] == rs[..i];
      }
      assert rs[..|rs|] == rs;
    }
  }

  /** The nested loops of ConvSimulation.__init__ (src/main.py:40-43): one
      ip-id and one sequence number for every ordered pair of entities,
      including an entity with itself. */
  method InitialCounters(keys: set<string>, initialIpIds: map<Key, int>, initialSeqNums: map<Key, int>)
      returns (ids: map<Key, int>, seqs: map<Key, int>)
    requires Pairs(keys, keys) <= initialIpIds.Keys && Pairs(keys, keys) <= initialSeqNums.Keys
    ensures ids.Keys == Pairs(keys, keys) && seqs.Keys == Pairs(keys, keys)
    ensures forall k | k in ids :: ids[k] == initialIpIds[k]
    ensures forall k | k in seqs :: seqs[k] == initialSeqNums[k]
  {
    ids, seqs := map[], map[];
    var outer := keys;
    ghost var done: set<string> := {};
    while outer != {}
      invariant outer + done == keys && outer !! done
      invariant ids.Keys == Pairs(done, keys) && seqs.Keys == Pairs(done, keys)
      invariant forall k | k in ids :: ids[k] == initialIpIds[k]
      invariant forall k | k in seqs :: seqs[k] == initialSeqNums[k]
      decreases outer
    {
      var entity :| entity in outer;
      var inner := keys;
      ghost var innerDone: set<string> := {};
      while inner != {}
        invariant inner + innerDone == keys && inner !! innerDone
        invariant ids.Keys == Pairs(done, keys) + Pairs({entity}, innerDone)
        invariant seqs.Keys == Pairs(done, keys) + Pairs({entity}, innerDone)
        invariant forall k | k in ids :: ids[k] == initialIpIds[k]
        invariant forall k | k in seqs :: seqs[k] == initialSeqNums[k]
        decreases inner
      {
        var other :| other in inner;
        assert (entity, other) in Pairs(keys, keys);
        ids := ids[(entity, other) := initialIpIds[(entity, other)]];
        seqs := seqs[(entity, other) := initialSeqNums[(entity, other)]];
        PairsAddRight(done, keys, entity, innerDone, other);
        inner := inner - {other};
        innerDone := innerDone + {other};
      }
      PairsAddLeft(done, keys, entity);
      outer := outer - {entity};
      done := done + {entity};
    }
    assert outer == {} && done == keys;
  }

  lemma PairsAddRight(done: set<string>, keys: set<string>, entity: string, innerDone: set<string>, other: string)
    ensures Pairs(done, keys) + Pairs({entity}, innerDone) + {(entity, other)}
         == Pairs(done, keys) + Pairs({entity}, innerDone + {other})
  {
  }

  lemma PairsAddLeft(done: set<string>, keys: set<string>, entity: string)
    ensures Pairs(done, keys) + Pairs({entity}, keys) == Pairs(done + {entity}, keys)
  {
  }
}
