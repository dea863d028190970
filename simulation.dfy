/** The timing simulator of src/simulation.py: a logical clock in milliseconds
    and the list of (timestamp, frame) records sent so far. The jittered ping
    and bandwidth readings are the callers' parameters. */
module Simulation {
  import opened Common

  datatype Record = Record(timestamp: int, data: Bytes)

  /** Every record is stamped no later than the next one and the clock is not
      behind the last record. */
  predicate Chronological(records: seq<Record>, time: int) {
    && (forall i, j | 0 <= i < j < |records| :: records[i].timestamp <= records[j].timestamp)
    && (forall i | 0 <= i < |records| :: records[i].timestamp <= time)
  }

  /** When the clock does not run backwards, appending a record stamped at or
      after the clock, then advancing the clock past it, keeps the records in
      order. */
  lemma AppendChronological(records: seq<Record>, time: int, r: Record, time': int)
    requires Chronological(records, time)
    requires time <= r.timestamp <= time'
    ensures Chronological(records + [r], time')
  {
    var rs := records + [r];
    forall i, j | 0 <= i < j < |rs| ensures rs[i].timestamp <= rs[j].timestamp {
      if j == |records| {
        assert rs[i] == records[i];
      } else {
        assert rs[i] == records[i] && rs[j] == records[j];
      }
    }
    forall i | 0 <= i < |rs| ensures rs[i].timestamp <= time' {
      if i < |records| {
        assert rs[i] == records[i];
      }
    }
  }

  /** The clock after simulate_data: the delay, one ping reading, and the
      transfer time |data| // bps. */
  function Advance(time: int, delay: int, pingReading: int, bpsReading: int, length: nat): (t: int)
    requires bpsReading > 0
    ensures delay >= 0 && pingReading >= 0 ==> t >= time + delay
  {
    time + delay + pingReading + length / bpsReading
  }

  /** A Simulation object. */
  class Simulator {
    var time: int
    var records: seq<Record>
    /** The ping jitter's centre and deviation, stored as the constructor
        does; no member reads them, since the readings they would produce are
        the parameters of SimulateData. */
    const pingMs: int
    const pingDeviationMs: int

    /** Simulation(start_timestamp, ping_ms, ping_deviation_ms)
        (src/simulation.py:21-25). */
    constructor (startTimestamp: int, pingMs: int, pingDeviationMs: int)
      ensures time == startTimestamp && records == []
      ensures this.pingMs == pingMs && this.pingDeviationMs == pingDeviationMs
      ensures Chronological(records, time)
    {
      time := startTimestamp;
      records := [];
      this.pingMs := pingMs;
      this.pingDeviationMs := pingDeviationMs;
    }

    /** simulate_data(data, delay) (src/simulation.py:27-36), given the ping
        and bandwidth readings it takes; a zero bandwidth reading would divide
        by zero. */
    method SimulateData(data: Bytes, delay: int, pingReading: int, bpsReading: int)
      requires bpsReading > 0
      modifies this
      ensures records == old(records) + [Record(old(time) + delay, data)]
      ensures time == Advance(old(time), delay, pingReading, bpsReading, |data|)
      ensures delay >= 0 && pingReading >= 0 && old(Chronological(records, time)) ==> Chronological(records, time)
    {
      records := records + [Record(time + delay, data)];
      ghost var sent := time + delay;
      time := time + delay;
      time := time + pingReading;
      time := time + |data| / bpsReading;
      if delay >= 0 && pingReading >= 0 && Chronological(old(records), old(time)) {
        AppendChronological(old(records), old(time), Record(sent, data), time);
      }
    }

    /** records() (src/simulation.py:38-40): every record, in the order it
        was appended. */
    method Records() returns (rs: seq<Record>)
      ensures |rs| == |records| && forall i | 0 <= i < |rs| :: rs[i] == records[i]
    {
      rs := [];
      for i := 0 to |records|
        invariant rs == records[..i]
      {
        rs := rs + [records[i]];
      }
    }
  }
}
