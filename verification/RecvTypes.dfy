/** Data model of the multi-channel receive handler: what the transport
    delivers, the per-channel buffer records, and the slots of the ring in
    which a time-aligned set of buffers is assembled. */
module RecvTypes {

  const ERROR_NONE: nat := 0
  const ERROR_TIMEOUT: nat := 1
  const ERROR_OVERFLOW: nat := 8
  const ERROR_ALIGNMENT: nat := 12
  const ERROR_BAD_PACKET: nat := 15

  /** A packet whose VRT header has been decoded. `code` is the context code of
      an inline message; data packets do not use it. The payload is counted in
      over-the-wire items. */
  datatype Packet = Packet(
    isData: bool, count: nat, chdrLink: bool, hasTsf: bool, time: real,
    sob: bool, eob: bool, code: nat, payload: seq<int>)

  /** What one call into a channel's transport yields. */
  datatype Arrival = Timeout | Malformed | Got(packet: Packet)

  datatype PacketKind =
    IfData | TimestampError | InlineMessage | TimeoutError | SequenceError | Threw

  /** The record kept for one received buffer. `packet` stands for the decoded
      header fields and the memory behind `copy_buff`; like `ifpi` in the
      original it survives a reset. */
  datatype BufferInfo = BufferInfo(held: bool, packet: Packet, time: real, copyPos: nat) {
    function Reset(): BufferInfo {
      this.(held := false, time := 0.0, copyPos := 0)
    }
  }

  function FreshBuffer(p: Packet): BufferInfo {
    BufferInfo(true, p, p.time, 0)
  }

  datatype Metadata = Metadata(
    hasTimeSpec: bool, timeSpec: real, moreFragments: bool, fragmentOffset: nat,
    startOfBurst: bool, endOfBurst: bool, errorCode: nat, outOfSequence: bool)

  const NO_METADATA := Metadata(false, 0.0, false, 0, false, false, ERROR_NONE, false)

  datatype Slot = Slot(
    buffers: seq<BufferInfo>, todo: seq<bool>, alignTime: real, alignValid: bool,
    dataBytes: nat, fragmentOffset: nat, md: Metadata)
  {
    ghost predicate Sized(n: nat) {
      |buffers| == n && |todo| == n
    }

    function Reset(): (s: Slot) {
      Slot(seq(|buffers|, i requires 0 <= i < |buffers| => buffers[i].Reset()),
           seq(|todo|, _ => true), 0.0, false, 0, 0, NO_METADATA)
    }

    ghost predicate IsReset() {
      && alignTime == 0.0 && !alignValid && dataBytes == 0 && fragmentOffset == 0
      && md == NO_METADATA
      && (forall i | 0 <= i < |todo| :: todo[i])
      && (forall i | 0 <= i < |buffers| :: buffers[i] == buffers[i].Reset())
    }

    /** A slot that carries no samples and no alignment progress, only a report. */
    ghost predicate IsReportOnly() {
      this.(md := NO_METADATA).IsReset()
    }
  }

  /** What the converter writes: an item of the payload, or whatever lies in
      memory behind a payload that is shorter than the set it was aligned with. */
  datatype Item = Sample(value: int) | Stray

  function ReadItems(payload: seq<int>, from: nat, n: nat): (r: seq<Item>)
    ensures |r| == n
  {
    seq(n, k requires 0 <= k < n =>
      if from + k < |payload| then Sample(payload[from + k]) else Stray)
  }

  lemma ReadItemsSplit(payload: seq<int>, from: nat, a: nat, b: nat)
    ensures ReadItems(payload, from, a) + ReadItems(payload, from + a, b) == ReadItems(payload, from, a + b)
  {
  }

  /** A set that alignment completed. `ends[i]` is how many data packets channel
      i had yielded by then, so its member of the set is number `ends[i] - 1`. */
  datatype AlignedSet = AlignedSet(time: real, items: nat, packets: seq<Packet>, ends: seq<nat>)

  /** Everything the aligned sets hold for one channel, in order. */
  ghost function Stream(sets: seq<AlignedSet>, i: nat): (r: seq<Item>)
    requires forall k | 0 <= k < |sets| :: i < |sets[k].packets|
  {
    if sets == [] then []
    else
      var last := sets[|sets| - 1];
      Stream(sets[..|sets| - 1], i) + ReadItems(last.packets[i].payload, 0, last.items)
  }

  /** The data packets among a run of arrivals. */
  ghost function DataOf(arrivals: seq<Arrival>): (r: seq<Packet>) {
    if arrivals == [] then []
    else
      var last := arrivals[|arrivals| - 1];
      DataOf(arrivals[..|arrivals| - 1]) + (if last.Got? && last.packet.isData then [last.packet] else [])
  }

  lemma DataOfStep(wire: seq<Arrival>, from: nat, to: nat)
    requires from <= to < |wire|
    ensures DataOf(wire[from..to + 1])
         == DataOf(wire[from..to]) + (if wire[to].Got? && wire[to].packet.isData then [wire[to].packet] else [])
  {
    assert wire[from..to + 1][..to - from] == wire[from..to];
  }
}
