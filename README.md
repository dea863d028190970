# pcap_creator in Dafny

A model of the encoding and bookkeeping stack of pcap_creator, a tool that
turns a scripted conversation between network entities into a libpcap capture
file. The model covers each layer and the proofs about it:

- the Internet checksum;
- the Ethernet II frame builder;
- the IPv4 and TCP header builders;
- the TCP/IPv4 composer, which takes the TCP pseudo-header from the built
  IPv4 packet;
- the timing simulator;
- the capture serializer;
- the conversation simulator that ties them together.

| module | file | models | form |
|---|---|---|---|
| `Common` | common.dfy | bytes, `Result`/`Option`, big- and little-endian integer encoders | values |
| `Utils` | utils.dfy | `ones_complement_checksum` | a method with a loop, proved against a spec function |
| `Mac` | mac.dfy | `mac.Packet`, `_mac_string_to_bytes`, `str.split` | functions |
| `Ipv4` | ipv4.dfy | `ipv4.Packet` | a class with a value view `Datagram` and spec functions |
| `Tcp` | tcp.dfy | `tcp.Packet` | a class with a value view `Segment` and spec functions |
| `TcpIpv4` | tcpipv4.dfy | `tcpipv4.Packet` | a class over the two layer objects, and spec functions |
| `Simulation` | simulation.dfy | `Simulation` | a class |
| `Pcap` | pcap.dfy | `Pcap` | a class with `AddRecord`; `build` as a function |
| `Conversation` | conversation.dfy | `NetworkEntity` and `ConvSimulation` | a class over a `Simulator` |

## How the model relates to the code

**Host byte order.** The host byte order is a parameter `host: ByteOrder`.
- `array("H")` reads two memory bytes in host order and `ntohs` undoes that, so each word is big-endian on any host.
- The final `htons` is the identity on a big-endian host and swaps the bytes on a little-endian one.
- Every builder that stores a checksum takes `host`.

**Values and objects.** Every layer object has a value view. The view is a datatype: `Datagram` for `ipv4.Packet`, `Segment` for `tcp.Packet`, `Stack` for `tcpipv4.Packet`. The object is a class whose fields the code updates in place:
- `ipv4.Packet._data` is reassigned from `tcpipv4`;
- `set_pseudo_header` mutates a `tcp.Packet`;
- `get_ack_packet` patches the two fields of a placeholder `tcpipv4.Packet`.

The patched placeholder is the constructor `TcpIpv4.Packet.FromParts`. A constructor that can raise becomes a method `Create` that returns a `Result`. Exceptions are the `Error` values of `Common`.

**Composition instead of inheritance.** `ConvSimulation` inherits from `Simulation` in the code. Here it holds a `Simulation.Simulator` in its field `sim`.

**Randomness as parameters.** The random jitter readings are parameters:
- one ping reading and one bandwidth reading per `simulate_data` call;
- the `randint` draws of the conversation's initial counters.

**Unbounded integers.** Integers are unbounded and nothing wraps. As in the code, an identification, sequence number, acknowledgement number, port or window that no longer fits its field makes the builder fail with `FieldOverflow`. The same happens for a length or timestamp that no longer fits.

**Where the code differs from the standards.** Each of these follows the code:
- The TCP pseudo-header is the 8 bytes [12, 20) of the built IPv4 packet: the source address followed by the destination address. The zero byte, protocol and TCP length of RFC 793, section 3.1, are not part of it.
- The capture record's sub-second field holds milliseconds (`unix_epoch_ms % 1000`), where the libpcap format expects microseconds.

**Counters of the acknowledgement and the conversation.**
- `get_ack_response` keeps the segment's own sequence number. Its acknowledgement number is seq + SYN/FIN + data length (src/tcp.py:64-69).
- The identification counter is incremented without wrapping at 2^16 (src/main.py:77). Once it reaches 2^16, the next message fails to build with `FieldOverflow`.

## Model

| member | source | states |
|---|---|---|
| `Utils.Htons` | src/utils.py:15 | htons gives a 16-bit value; on a big-endian host it is the input, on a little-endian one its high byte is the input's low byte and its low byte the input's high byte |
| `Utils.HtonsInvolution` | src/utils.py:15 | applying htons twice gives the input back on either host |
| `Utils.NativeWord` | src/utils.py:11 | the element array("H") yields from two memory bytes is a 16-bit value |
| `Utils.NtohsOfNativeWord` | src/utils.py:11-12 | on either host, ntohs of the array("H") element is the big-endian word b0 * 256 + b1 |
| `Utils.Padded` | src/utils.py:8-9 | the summed buffer has even length, begins with the whole input and adds at most one zero byte |
| `Utils.Words` | src/utils.py:11 | an even buffer of n bytes is read as n / 2 words |
| `Utils.Fold` | src/utils.py:13 | after every fold the running sum lies in [0, 0xffff] |
| `Utils.WordFoldIsFoldedSum` | src/utils.py:11-13 | reading the buffer two bytes at a time folds exactly its big-endian words in order |
| `Utils.FoldStep` | src/utils.py:12-13 | folding a word into the representative of a sum gives the representative of the larger sum |
| `Utils.FoldedSumIsEndAroundSum` | src/utils.py:11-13 | the loop's final sum is the end-around-carry representative of the plain sum of the words |
| `Utils.EndAroundCongruent` | src/utils.py:13 | the representative is congruent to the plain sum modulo 0xffff |
| `Utils.FoldedSumCongruent` | src/utils.py:11-13 | the folded sum is congruent modulo 0xffff to the plain sum of all words (RFC 1071, section 2) |
| `Utils.InternetChecksum` | src/utils.py:6-15 | the value before htons is a 16-bit value, and 0xffff for empty input |
| `Utils.Checksum` | src/utils.py:5-15 | what the function returns on a given host is a 16-bit value |
| `Utils.OnesComplementChecksum` | src/utils.py:5-15 | the loop returns the checksum of the padded input on the given host; its invariant keeps the running sum equal to the fold of the words read so far |
| `Utils.ChecksumSelfVerifies` | src/utils.py:11-15 | zeroing an aligned word, storing the checksum there and summing again gives 0 (RFC 1071, section 1) |
| `Utils.ChecksumPatchVerifies` | src/utils.py:11-15 | the same, for a checksum field between an even-length head and any tail |
| `Utils.BigEndianChecksum` | src/utils.py:15 | on a big-endian host the returned value is the Internet checksum |
| `Utils.LittleEndianChecksumFails` | src/utils.py:15 | on a little-endian host the returned value, stored big-endian, leaves a message whose checksum is 0x00ff instead of 0 |
| `Mac.JoinSplit` | src/mac.py:25 | `Split` (str.split) loses nothing: `Join` of its groups with the separator gives the string back |
| `Mac.SplitGroupCount` | src/mac.py:25-26 | split gives one group more than there are separators |
| `Mac.SplitJoin` | src/mac.py:25 | groups without separators, put together by `Join` and split again by `Split`, come back unchanged |
| `Mac.ParseOctet` | src/mac.py:29 | a group is accepted exactly when it is a non-empty hex string worth less than 256, and gives that value |
| `Mac.ParseOctets` | src/mac.py:29 | the groups are accepted exactly when each group is, and then become one byte each, in order, each the value of its group |
| `Mac.ParseMac` | src/mac.py:24-29 | an address is accepted exactly when `Split` gives 6 groups and each parses; the result is 6 bytes, byte i the value of group i; any number of groups other than 6 is refused with the group-count error |
| `Mac.HexGroupsAccepted` | src/mac.py:24-29 | any six non-empty hex groups worth less than 256, in either case and of any length, joined with colons, are accepted and give their values in order |
| `Mac.FormatOctetParses` | src/mac.py:29 | a two-digit lower-case hex group parses to its byte |
| `Mac.MacRoundTrip` | src/mac.py:24-29 | every address in colon-separated hex form is accepted and gives back its six bytes |
| `Mac.OctetsRoundTrip` | src/mac.py:29 | groups formatted from bytes parse back to those bytes |
| `Mac.FewerGroupsRefused` | src/mac.py:26-27 | an illustration of the misleading "Too many" message: an address with three groups is refused with the group-count error |
| `Mac.PaddingLength` | src/mac.py:13-14 | Aligned(8) adds fewer than 8 bytes and reaches a multiple of 8 |
| `Mac.BuildFrame` | src/mac.py:37-43 | a frame builds exactly when both addresses parse and the ethertype fits 16 bits; a bad destination decides the error; the length is the least multiple of 8 at or above 14 + data length |
| `Mac.FrameLayout` | src/mac.py:13-21 | a built frame reads back as destination, source, big-endian ethertype, the data, then zeros |
| `Mac.ReversedFrameBuilds` | src/mac.py:37-43 | the frame with the two addresses exchanged builds exactly when the original does |
| `Ipv4.Header` | src/ipv4.py:15-35 | the header without options is 20 bytes |
| `Ipv4.ZeroedHeader` | src/ipv4.py:70-72 | the checksum's input is the 20-byte header with the checksum field 0 |
| `Ipv4.BuildDatagram` | src/ipv4.py:54-74 | a packet builds exactly when identification, total length and TTL/protocol fit their fields (otherwise FieldOverflow); it is 20 + data length bytes |
| `Ipv4.Construct` | src/ipv4.py:42-52 | construction succeeds exactly when the fields fit and 20 + data length <= 1500; the error is FieldOverflow, or MtuExceeded when only the MTU is exceeded |
| `Ipv4.HeaderBytes` | src/ipv4.py:15-35 | the header holds 0x45, 0, total length and identification big-endian, 0x40 0, TTL, protocol, checksum and the two addresses at their offsets |
| `Ipv4.HeaderParsed` | src/ipv4.py:16-33 | a reader sees version 4, IHL 5, TOS 0, DF set, MF clear, offset 0 and the stored fields |
| `Ipv4.ParseHeaderPrefix` | src/ipv4.py:37-40 | the header is read from the first 20 bytes and the payload does not affect it |
| `Ipv4.BuildLayout` | src/ipv4.py:54-74 | a built packet reads back with total length 20 + data length, the checksum of the zeroed header, the stored fields, and the payload at offset 20 |
| `Ipv4.AddressesAt12` | src/ipv4.py:32-33 | bytes [12, 20) of a built packet are the source address followed by the destination address |
| `Ipv4.ChecksumCoversHeaderOnly` | src/ipv4.py:70-72 | packets whose payloads differ but have the same length have identical headers |
| `Ipv4.HeaderChecksumVerifies` | src/ipv4.py:70-72 | on a big-endian host the Internet checksum of the built header is 0 |
| `Ipv4.Packet.constructor` | src/ipv4.py:42-49 | the object holds the given field values |
| `Ipv4.Packet.BuildReadsBack` | src/ipv4.py:54-74 | build on the object succeeds exactly when its current fields fit; the bytes read back as version 4, IHL 5, total length 20 + data length, the object's identification, TTL, protocol and addresses, DF set, the checksum of the zeroed header, and the object's data at offset 20 |
| `Ipv4.Create` | src/ipv4.py:42-52 | the object is created exactly when Construct succeeds, with Construct's error otherwise, and holds the given fields |
| `Tcp.BitsValueBound` | src/tcp.py:19-28 | n packed bits are worth less than 2^n |
| `Tcp.BitsRoundTrip` | src/tcp.py:19-28 | unpacking a BitStruct's packed bits gives them back, most significant first |
| `Tcp.FlagsBytePacksBits` | src/tcp.py:19-28 | the flags byte (`FlagsByte`) packs CWR ECE URG=0 ACK PSH RST SYN FIN, most significant bit first |
| `Tcp.FlagsRoundTrip` | src/tcp.py:19-28 | each flag has its own bit (CWR 0x80 down to FIN 0x01) and the URG bit is always clear |
| `Tcp.Fixed` | src/tcp.py:13-29 | the header bytes before the checksum are 16 bytes |
| `Tcp.Header` | src/tcp.py:13-32 | the header without options is 20 bytes |
| `Tcp.BuildSegment` | src/tcp.py:71-99 | a segment builds exactly when ports, sequence and acknowledgement numbers and window fit (otherwise FieldOverflow); it is 20 + data length bytes |
| `Tcp.HeaderBytes` | src/tcp.py:72-92 | ports, sequence and acknowledgement numbers big-endian, 0x50, the flags byte, window, checksum and urgent pointer 0 at their offsets |
| `Tcp.ParseHeaderPrefix` | src/tcp.py:34-37 | the header is read from the first 20 bytes and the data does not affect it |
| `Tcp.HeaderParsed` | src/tcp.py:13-32 | a reader sees the stored fields, data offset 5, the flags with URG clear, and urgent pointer 0 |
| `Tcp.SegmentLayout` | src/tcp.py:71-99 | a built segment reads back with the checksum of pseudo-header + segment with checksum 0, and the data at offset 20 |
| `Tcp.SegmentChecksumVerifies` | src/tcp.py:94-97 | on a big-endian host, with an even-length pseudo-header, the checksum of pseudo-header + built segment is 0 |
| `Tcp.PseudoHeaderOnlyAffectsChecksum` | src/tcp.py:94-97 | two builds that differ only in pseudo-header have the same length and differ at most in bytes [16, 18) |
| `Tcp.AckResponseBuild` | src/tcp.py:64-69 | the reply (`AckResponse`, whose ack number is `NextSeq`) acknowledges seq + data length (seq + 1 for SYN or FIN without data), builds exactly when that fits 32 bits and the window 16 bits, and reads back with ports swapped, the same sequence number, ACK alone, the given window and no data |
| `Tcp.Packet.constructor` | src/tcp.py:39-59 | the object holds the given field values |
| `Tcp.Packet.SetPseudoHeader` | src/tcp.py:61-62 | only the pseudo-header changes |
| `Tcp.Packet.GetAckResponse` | src/tcp.py:64-69 | a fresh object holding AckResponse with the given window, 1500 by default; the original is not modified |
| `Tcp.Packet.BuildReadsBack` | src/tcp.py:71-99 | build on the object succeeds exactly when its current fields fit; the bytes read back as the object's ports, sequence and acknowledgement numbers, flags and window, data offset 5, the checksum over its pseudo-header + segment, urgent pointer 0, and its data at offset 20 |
| `TcpIpv4.PseudoHeaderOf` | src/tcpipv4.py:13-15 | the slice [12:20) of a packet that builds is the source address followed by the destination address |
| `TcpIpv4.ComposeResult` | src/tcpipv4.py:17-38 | construction (`Compose`) succeeds exactly when the IPv4 fields fit, 40 + data length <= 1500, and the TCP fields fit; the IPv4 errors come first |
| `TcpIpv4.ComposeLayout` | src/tcpipv4.py:17-38 | the result is an IPv4 packet with the given addresses, identification and TTL, protocol 6 and total length 40 + data length, carrying the TCP segment with the two addresses as pseudo-header |
| `TcpIpv4.ComposeChecksums` | src/tcpipv4.py:32-38 | on a big-endian host both the IPv4 header checksum and the TCP checksum over addresses + segment verify |
| `TcpIpv4.ComposedBuilds` | src/tcpipv4.py:61-62 | a constructed packet builds under `BuildStack` (build of the IPv4 layer) |
| `TcpIpv4.AckBuilds` | src/tcpipv4.py:61-62 | an acknowledgement packet builds |
| `TcpIpv4.AckStackOf` | src/tcpipv4.py:40-59 | for any packet state the reply (`AckStack`, which wraps the segment by `Reply`) exists exactly when its TCP fields and the identification and TTL fit; it swaps addresses, keeps identification and TTL, protocol 6, and takes the swapped addresses as pseudo-header |
| `TcpIpv4.AckOfComposed` | src/tcpipv4.py:40-59 | the reply (`AckStack`) to a constructed packet exists exactly when the acknowledgement number fits 32 bits and the window 16 bits; it goes back from destination to source with the acknowledgement number seq + SYN/FIN + data length |
| `TcpIpv4.AckLayout` | src/tcpipv4.py:52-54 | the reply is 40 bytes and carries its TCP segment at offset 20 |
| `TcpIpv4.AckChecksums` | src/tcpipv4.py:52-54 | on a big-endian host both checksums of the reply verify, the TCP one over destination + source + segment |
| `TcpIpv4.Packet.FromParts` | src/tcpipv4.py:56-58 | the placeholder object holds the two given layer objects |
| `TcpIpv4.Packet.BuildReadsBack` | src/tcpipv4.py:61-62 | build (`BuildStack` of the current state) succeeds exactly when the IPv4 object's fields fit; the bytes carry that object's addresses and protocol, a total length equal to their own length, and its data after the 20-byte header |
| `TcpIpv4.Packet.GetAckPacket` | src/tcpipv4.py:40-59 | returns fresh layer objects holding AckStack with remote window 0 by default, or its error; the forward packet is not modified |
| `TcpIpv4.CreateReply` | src/tcpipv4.py:43-58 | wrapping, as `Reply` describes, the acknowledgement segment gives a fresh IPv4 object, and the segment object receives its pseudo-header; the resulting state is Reply of the inputs, or its error |
| `TcpIpv4.Create` | src/tcpipv4.py:17-38 | the object exists exactly when Compose succeeds, with Compose's error otherwise, and holds Compose's state |
| `Simulation.AppendChronological` | src/simulation.py:29-36 | appending a record stamped at or after the clock, then moving the clock past it, keeps the records in order |
| `Simulation.Advance` | src/simulation.py:34-36 | with non-negative delay and ping reading the clock advances by at least the delay |
| `Simulation.Simulator.constructor` | src/simulation.py:21-25 | the clock starts at start_timestamp with no records |
| `Simulation.Simulator.SimulateData` | src/simulation.py:27-36 | exactly one record (time + delay, data) is appended; the clock advances by delay + ping + length // bps; with non-negative delay and ping the records stay in order |
| `Simulation.Simulator.Records` | src/simulation.py:38-40 | every record, in append order |
| `Pcap.RecordOf` | src/pcap.py:45-51 | sec * 1000 + frac = ms with 0 <= frac < 1000; both lengths equal the data length |
| `Pcap.EncodeRecord` | src/pcap.py:15-21 | a record encodes exactly when its four fields fit 32 bits and captured_length is the data length; it is 16 + data length bytes |
| `Pcap.FileHeader` | src/pcap.py:23-30 | the file header is 24 bytes |
| `Pcap.FileHeaderFields` | src/pcap.py:23-30 | magic D4 C3 B2 A1, versions 2 and 4, two zero words, snap length 0 and the link type, all little-endian |
| `Pcap.RecordOfEncodable` | src/pcap.py:45-51 | every record add_record stores encodes exactly when its timestamp in seconds (ms // 1000) and its length fit 32 bits, that is 0 <= ms < 2^32 * 1000 |
| `Pcap.EncodeRecordsOk` | src/pcap.py:31 | the records (`EncodeRecords`) encode exactly when each of them does; their length is the sum of 16 + data length |
| `Pcap.CaptureLength` | src/pcap.py:53-58 | the file `BuildCapture` writes is 24 + the sum over records of 16 + data length bytes |
| `Pcap.RecordsRoundTrip` | src/pcap.py:15-21 | reading the encoded records back gives them again, in order |
| `Pcap.CaptureRoundTrip` | src/pcap.py:53-58 | reading a file built by `BuildCapture` back gives its link type and its records |
| `Pcap.Capture.constructor` | src/pcap.py:34-36 | link type 1 by default, no records |
| `Pcap.Capture.AddRecord` | src/pcap.py:38-51 | one record appended at the end, earlier records and link type unchanged |
| `Pcap.Capture.BuildReadsBack` | src/pcap.py:53-58 | build succeeds exactly when the link type fits 32 bits and every record encodes; the file is 24 + the sum of 16 + data length bytes and reads back as the link type and the records in order |
| `Conversation.PacketPairResult` | src/main.py:46-69 | a pair (`PacketPairOf`) is created exactly when both entities and counters are known, the IPv4 and TCP fields fit, the packet fits the MTU, seq + data length fits 32 bits and the target's window fits 16 bits |
| `Conversation.PacketPairCounters` | src/main.py:47-64 | a created pair uses a 16-bit identification and returns ack number seq[(s,t)] + data length |
| `Conversation.PacketPairFrames` | src/main.py:63-67 | the forward frame goes from the sender's MAC to the target's, the ack frame the other way, both with ethertype 0x0800; the forward frame carries the tcpipv4 packet of the sender's counters, the ack frame the build of that packet's acknowledgement with the target's window |
| `Conversation.CommitBounds` | src/main.py:77-78 | the identification a created pair uses is below 2^16, so the one committed is at most 2^16; the new sequence number (the ack number) is at least the old one and below 2^32 |
| `Conversation.MessageFramesOf` | src/main.py:72-75 | the two frames `MessageFrames` gives are the builds of the pair; if the forward frame builds so does the reversed one |
| `Conversation.MessageCommits` | src/main.py:64-78 | a message that can be sent commits seq[(s,t)] + data length |
| `Conversation.PcapRecords` | src/main.py:80-85 | one capture record per simulation record, in order |
| `Conversation.CaptureBuilds` | src/main.py:80-85 | the capture of records whose timestamps in seconds and lengths fit 32 bits builds |
| `Conversation.InitialCounters` | src/main.py:41-44 | after the nested loops every ordered pair, including (e, e), has a counter, taken from the draws |
| `Conversation.ConvSimulation.constructor` | src/main.py:34-44 | empty simulation at start_timestamp; counters for exactly the ordered pairs, in range |
| `Conversation.ConvSimulation.CreatePacketPair` | src/main.py:46-69 | returns the pair PacketPairOf describes and changes nothing |
| `Conversation.ConvSimulation.Frames` | src/main.py:72-75 | the frames are computed before anything changes, and a built message has committable counters |
| `Conversation.ConvSimulation.RecordBoth` | src/main.py:74-75 | two records: the frame after the delay, then the ack frame as soon as the frame has been transferred; order kept |
| `Conversation.ConvSimulation.Commit` | src/main.py:77-78 | the identification grows by one, the sequence number becomes the ack number, no other entry changes |
| `Conversation.ConvSimulation.Apply` | src/main.py:74-78 | the records and counters change as the predicate `Sent` describes: on an error nothing changes; otherwise the frame and the ack frame are appended at the times the two transfers give, the clock ends after the second transfer, the identification is one more and the sequence number is the ack number |
| `Conversation.ConvSimulation.SimulateMessage` | src/main.py:71-78 | on an error nothing changes; otherwise exactly two records are appended and only the sender's counters for (s,t) change; with non-negative delay and readings the records stay in order |
| `Conversation.ConvSimulation.ToPcap` | src/main.py:80-85 | a fresh Ethernet capture with one record per simulation record, in order |

## Left out

- `json_to_pcap` and `main` (src/main.py:88-126) are left out. They do JSON access, date parsing, argument parsing and file I/O. `_DEFAULT_WINDOW_SIZE` is used only by `json_to_pcap`.
- `Jitter` (src/simulation.py:4-14) is left out because it draws floats from `random.random()`. Each `simulate_data` takes its ping and bandwidth readings as integer parameters. `Simulation.Simulator.SimulateData` requires a positive bandwidth reading, because the code would divide by zero.
- `Conversation.ConvSimulation.constructor`: the `randint` draws are the maps `initialIpIds` and `initialSeqNums`, constrained to randint's ranges.
- `ipaddress.IPv4Address` parsing of dotted quads is not modelled. Addresses are their packed 4-byte form.
- The `construct` library's internals are not modelled. Each layout is written out byte by byte.
- `Mac.ParseOctet` models plain hex-digit groups. Python's `int(x, 16)` also accepts surrounding whitespace, a `0x` prefix, a sign and underscores.
- `Tcp.Packet.GetAckResponse` takes only the `window` keyword. `**kwargs` could also carry flags or data, but the only caller passes `window`.
- test/test_ipv4.py is not part of this model. It makes no assertions.
- The unused ethertype and link-type constants (src/mac.py:5-8, src/pcap.py:6) are not modelled.
- Python generator laziness is not modelled. `records()` returns the whole list.

## Findings

| source | as written | input that shows it | evidently intended | confidence | as-written member | corrected member |
|---|---|---|---|---|---|---|
| src/utils.py:15 | `htons(0xffff - checksum)` byte-swaps the checksum on a little-endian host, and the layouts then store it big-endian with `Int16ub` | data 00 01 00 00 with the checksum word at offset 2, on a little-endian host: the checksum 0xfffe is stored as FE FF, and the message then sums to checksum 0x00ff instead of 0 | return `0xffff - checksum` unchanged, and store it big-endian | not executed | `Utils.LittleEndianChecksumFails` | `Utils.InternetChecksum` |
