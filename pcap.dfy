/** The capture file writer of src/pcap.py: the classic libpcap file header
    and one record per frame (draft-ietf-opsawg-pcap, sections 4 and 5), every
    integer little-endian. The sub-second field of a record holds
    milliseconds, as the source writes it, where the format defines
    microseconds. */
module Pcap {
  import opened Common

  const Magic := 0xA1B2C3D4
  const MajorVersion := 2
  const MinorVersion := 4
  const SnapLength := 0
  const LinktypeEthernet := 1
  const FileHeaderLength := 24
  const RecordHeaderLength := 16
  const MsPerSecond := 1000

  /** One entry of Pcap._records (src/pcap.py:15-21, 45-51). */
  datatype Record = Record(timestampSec: int, timestampMs: int, capturedLength: int, originalLength: int, data: Bytes)

  /** add_record's entry for a frame sent at unix_epoch_ms; for a positive
      divisor Python's // and % agree with Dafny's / and %. */
  function RecordOf(unixEpochMs: int, data: Bytes): (r: Record)
    ensures r.timestampSec * MsPerSecond + r.timestampMs == unixEpochMs
    ensures 0 <= r.timestampMs < MsPerSecond
    ensures r.capturedLength == r.originalLength == |data| && r.data == data
  {
    Record(unixEpochMs / MsPerSecond, unixEpochMs % MsPerSecond, |data|, |data|, data)
  }

  predicate HeaderFieldsFit(r: Record) {
    IsU32(r.timestampSec) && IsU32(r.timestampMs) && IsU32(r.capturedLength) && IsU32(r.originalLength)
  }

  /** _RECORD_STRUCT.build: four Int32ul fields, then exactly captured_length
      bytes. */
  function EncodeRecord(r: Record): (b: Result<Bytes>)
    ensures b.Ok? <==> HeaderFieldsFit(r) && r.capturedLength == |r.data|
    ensures b.Err? ==> b.error == if HeaderFieldsFit(r) then LengthMismatch else FieldOverflow
    ensures b.Ok? ==> |b.value| == RecordHeaderLength + |r.data|
  {
    if !HeaderFieldsFit(r) then Err(FieldOverflow)
    else if r.capturedLength != |r.data| then Err(LengthMismatch)
    else Ok(LE32(r.timestampSec) + LE32(r.timestampMs) + LE32(r.capturedLength) + LE32(r.originalLength) + r.data)
  }

  /** The records in insertion order; the first that cannot be encoded stops
      the build. */
  function EncodeRecords(rs: seq<Record>): Result<Bytes> {
    if |rs| == 0 then Ok([])
    else
      var head :- EncodeRecord(rs[0]);
      var tail :- EncodeRecords(rs[1..]);
      Ok(head + tail)
  }

  /** The 24-byte file header (src/pcap.py:23-30, 54-57), snap length 0. */
  function FileHeader(linkType: int): (h: Bytes)
    requires IsU32(linkType)
    ensures |h| == FileHeaderLength
  {
    LE32(Magic) + LE16(MajorVersion) + LE16(MinorVersion) + LE32(0) + LE32(0) + LE32(SnapLength) + LE32(linkType)
  }

  /** Pcap.build (src/pcap.py:53-58). */
  function BuildCapture(linkType: int, rs: seq<Record>): Result<Bytes> {
    if !IsU32(linkType) then Err(FieldOverflow)
    else
      var body :- EncodeRecords(rs);
      Ok(FileHeader(linkType) + body)
  }

  function RecordsLength(rs: seq<Record>): nat {
    if |rs| == 0 then 0 else RecordHeaderLength + |rs[0].data| + RecordsLength(rs[1..])
  }

  predicate Encodable(r: Record) {
    HeaderFieldsFit(r) && r.capturedLength == |r.data|
  }

  /** A reader of the record list: repeated records until the input ends. */
  function ParseRecords(b: Bytes): Option<seq<Record>>
    decreases |b|
  {
    if |b| == 0 then Some([])
    else if |b| < RecordHeaderLength then None
    else
      var n := LE32At(b, 8);
      if |b| < RecordHeaderLength + n then None
      else
        var r := Record(LE32At(b, 0), LE32At(b, 4), n, LE32At(b, 12), b[RecordHeaderLength..RecordHeaderLength + n]);
        match ParseRecords(b[RecordHeaderLength + n..])
        case None => None
        case Some(rest) => Some([r] + rest)
  }

  /** A reader of the whole file: the constant header fields checked, the
      link type and the records returned. */
  function ParseCapture(b: Bytes): Option<(int, seq<Record>)> {
    if |b| < FileHeaderLength then None
    else if LE32At(b, 0) != Magic || LE16At(b, 4) != MajorVersion || LE16At(b, 6) != MinorVersion
         || LE32At(b, 8) != 0 || LE32At(b, 12) != 0 || LE32At(b, 16) != SnapLength then None
    else
      match ParseRecords(b[FileHeaderLength..])
      case None => None
      case Some(rs) => Some((LE32At(b, 20), rs))
  }

  lemma FileHeaderFields(linkType: int)
    requires IsU32(linkType)
    ensures var h := FileHeader(linkType);
            && LE32At(h, 0) == Magic && LE16At(h, 4) == MajorVersion && LE16At(h, 6) == MinorVersion
            && LE32At(h, 8) == 0 && LE32At(h, 12) == 0 && LE32At(h, 16) == SnapLength && LE32At(h, 20) == linkType
            && h[..4] == [0xD4, 0xC3, 0xB2, 0xA1]
  {
    var h := FileHeader(linkType);
    var fixed: Bytes := [0xD4, 0xC3, 0xB2, 0xA1, 2, 0, 4, 0, 0, 0, 0, 0, 0, 0, 0, 0, 0, 0, 0, 0];
    var l := LE32(linkType);
    assert h == fixed + l;
    assert h[20..] == l;
    assert LE32At(h, 20) == LE32At(l, 0);
  }

  /** Every record that add_record stores can be encoded as long as its
      timestamp is not before the epoch and its seconds and length fit 32 bits. */
  lemma RecordOfEncodable(unixEpochMs: int, data: Bytes)
    ensures Encodable(RecordOf(unixEpochMs, data))
        <==> 0 <= unixEpochMs < 0x1_0000_0000 * MsPerSecond && IsU32(|data|)
  {
  }

  /** The records encode exactly when each of them can. */
  lemma {:induction false} EncodeRecordsOk(rs: seq<Record>)
    ensures EncodeRecords(rs).Ok? <==> forall i | 0 <= i < |rs| :: Encodable(rs[i])
    ensures EncodeRecords(rs).Ok? ==> |EncodeRecords(rs).value| == RecordsLength(rs)
    decreases |rs|
  {
    if |rs| > 0 {
      EncodeRecordsOk(rs[1..]);
      assert forall i | 1 <= i < |rs| :: rs[i] == rs[1..][i - 1];
    }
  }

  /** The file is 24 bytes of header and 16 bytes plus the data for each
      record. */
  lemma CaptureLength(linkType: int, rs: seq<Record>)
    requires IsU32(linkType) && forall i | 0 <= i < |rs| :: Encodable(rs[i])
    ensures BuildCapture(linkType, rs).Ok?
    ensures |BuildCapture(linkType, rs).value| == FileHeaderLength + RecordsLength(rs)
  {
    EncodeRecordsOk(rs);
  }

  /** Reading the encoded records back gives them again, in order. */
  lemma {:induction false} RecordsRoundTrip(rs: seq<Record>)
    requires EncodeRecords(rs).Ok?
    ensures ParseRecords(EncodeRecords(rs).value) == Some(rs)
    decreases |rs|
  {
    if |rs| > 0 {
      var r := rs[0];
      var tail := EncodeRecords(rs[1..]).value;
      RecordReadsBack(r, tail);
      assert EncodeRecords(rs).value == EncodeRecord(r).value + tail;
      RecordsRoundTrip(rs[1..]);
      assert [r] + rs[1..] == rs;
    }
  }

  /** An encoded record followed by anything reads back as its four fields,
      its data, and what follows. */
  lemma RecordReadsBack(r: Record, tail: Bytes)
    requires Encodable(r)
    ensures var b := EncodeRecord(r).value + tail;
            && |b| == RecordHeaderLength + |r.data| + |tail|
            && LE32At(b, 0) == r.timestampSec && LE32At(b, 4) == r.timestampMs
            && LE32At(b, 8) == r.capturedLength && LE32At(b, 12) == r.originalLength
            && b[RecordHeaderLength..RecordHeaderLength + |r.data|] == r.data
            && b[RecordHeaderLength + |r.data|..] == tail
  {
    var head := EncodeRecord(r).value;
    var b := head + tail;
    var f0, f1, f2, f3 := LE32(r.timestampSec), LE32(r.timestampMs), LE32(r.capturedLength), LE32(r.originalLength);
    assert head == f0 + f1 + f2 + f3 + r.data;
    assert b[..4] == f0 && b[4..8] == f1 && b[8..12] == f2 && b[12..16] == f3;
    assert LE32At(b, 0) == LE32At(f0, 0) && LE32At(b, 4) == LE32At(f1, 0);
    assert LE32At(b, 8) == LE32At(f2, 0) && LE32At(b, 12) == LE32At(f3, 0);
  }

  /** Reading a built capture back gives its link type and its records. */
  lemma CaptureRoundTrip(linkType: int, rs: seq<Record>)
    requires BuildCapture(linkType, rs).Ok?
    ensures ParseCapture(BuildCapture(linkType, rs).value) == Some((linkType, rs))
  {
    var h := FileHeader(linkType);
    var body := EncodeRecords(rs).value;
    var b := h + body;
    FileHeaderFields(linkType);
    assert b[..FileHeaderLength] == h;
    assert LE32At(b, 0) == LE32At(h, 0) && LE16At(b, 4) == LE16At(h, 4) && LE16At(b, 6) == LE16At(h, 6);
    assert LE32At(b, 8) == LE32At(h, 8) && LE32At(b, 12) == LE32At(h, 12);
    assert LE32At(b, 16) == LE32At(h, 16) && LE32At(b, 20) == LE32At(h, 20);
    assert b[FileHeaderLength..] == body;
    RecordsRoundTrip(rs);
  }

  /** A Pcap object. */
  class Capture {
    const linkType: int
    var records: seq<Record>

    /** Pcap(link_type) (src/pcap.py:34-36); the default link type is Ethernet. */
    constructor (linkType: Option<int>)
      ensures this.linkType == linkType.GetOr(LinktypeEthernet) && records == []
    {
      this.linkType := linkType.GetOr(LinktypeEthernet);
      records := [];
    }

    /** add_record (src/pcap.py:38-51): one entry at the end. */
    method AddRecord(unixEpochMs: int, data: Bytes)
      modifies this
      ensures records == old(records) + [RecordOf(unixEpochMs, data)]
    {
      records := records + [Record(unixEpochMs / MsPerSecond, unixEpochMs % MsPerSecond, |data|, |data|, data)];
    }

    /** build on the current records. */
    function Build(): (r: Result<Bytes>)
      reads this
      ensures r == BuildCapture(linkType, records)
    {
      BuildCapture(linkType, records)
    }

    /** build succeeds exactly when the link type fits 32 bits and every
        record can be encoded; the file is 24 bytes plus 16 and the data per
        record, and reads back as the link type and the records, in order. */
    lemma BuildReadsBack()
      ensures Build().Ok? <==> IsU32(linkType) && forall i | 0 <= i < |records| :: Encodable(records[i])
      ensures Build().Ok? ==> && |Build().value| == FileHeaderLength + RecordsLength(records)
                              && ParseCapture(Build().value) == Some((linkType, records))
    {
      EncodeRecordsOk(records);
      if Build().Ok? {
        CaptureLength(linkType, records);
        CaptureRoundTrip(linkType, records);
      }
    }
  }
}
