/** The receive packet handler: a ring of four slots in which packets of N
    channels are time-aligned and then handed out in fragments of any size. */
module RecvHandler {
  import opened RecvTypes
  import opened RecvAlign
  import opened RecvState
  import Arith
  import opened Basics

  /** What a channel's transport yields at a position of its wire; past the end
      it times out for ever. */
  function ArrivalAt(wire: seq<Arrival>, k: nat): Arrival {
    if k < |wire| then wire[k] else Timeout
  }

  /** The count after `p`, within 12 bits, or 4 bits without a link layer. */
  function NextCount(p: Packet): nat {
    if p.chdrLink then (p.count + 1) % 4096 else (p.count + 1) % 16
  }

  /** The packet count expected at a position of a wire: one past the count of
      the last data packet before it. */
  ghost function ExpectedCount(wire: seq<Arrival>, k: nat): nat {
    var h := if k <= |wire| then DataOf(wire[0..k]) else [];
    if h == [] then 0 else NextCount(h[|h| - 1])
  }

  function Advance(wire: seq<Arrival>, k: nat): nat {
    if k < |wire| then k + 1 else k
  }

  /** The bookkeeping of one channel agrees with what its wire holds. */
  ghost predicate ChannelOk(wire: seq<Arrival>, start: nat, pos: nat, h: seq<Packet>, count: nat) {
    && start <= pos <= |wire|
    && h == DataOf(wire[start..pos])
    && count == ExpectedCount(wire, pos)
  }

  lemma ChannelStep(wire: seq<Arrival>, start: nat, pos: nat, h: seq<Packet>, count: nat)
    requires ChannelOk(wire, start, pos, h, count)
    ensures var a := ArrivalAt(wire, pos);
            if a.Got? && a.packet.isData then
              ChannelOk(wire, start, Advance(wire, pos), h + [a.packet], NextCount(a.packet))
            else
              ChannelOk(wire, start, Advance(wire, pos), h, count)
  {
    hide DataOf;
    if pos < |wire| {
      DataOfStep(wire, 0, pos);
      DataOfStep(wire, start, pos);
    }
  }

  /** The verdict on an arrival; the order of the checks matters. */
  ghost function Verdict(a: Arrival, expected: nat, prevTime: real): PacketKind {
    match a
    case Timeout => TimeoutError
    case Malformed => Threw
    case Got(p) =>
      if !p.isData then InlineMessage
      else if p.count != expected then SequenceError
      else if p.hasTsf && prevTime > p.time then TimestampError
      else IfData
  }

  /** The buffer record after an arrival: a throw happens before the header is read. */
  function Stored(a: Arrival, info: BufferInfo): BufferInfo {
    match a
    case Timeout => info.(held := false)
    case Malformed => info.(held := true)
    case Got(p) => FreshBuffer(p)
  }

  /** An arrival that the alignment loop passes over without a report. */
  ghost predicate Clean(wire: seq<Arrival>, k: nat) {
    k < |wire| && wire[k].Got? && wire[k].packet.isData && wire[k].packet.count == ExpectedCount(wire, k)
  }

  /** The time reported for a gap: where the previous packet ended. */
  function GapTime(prev: Slot, c: nat, bytesPerItem: nat, sampRate: real): real
    requires c < |prev.buffers| && 0 < bytesPerItem && sampRate > 0.0
  {
    var words := (|prev.buffers[c].packet.payload| * bytesPerItem + 3) / 4;
    prev.md.timeSpec + (words * 4 / bytesPerItem) as real / sampRate
  }

  /** The report left for the arrival at position `k` of a wire. */
  ghost predicate Reports(md: Metadata, wire: seq<Arrival>, k: nat, prev: Slot, c: nat, bytesPerItem: nat,
                          sampRate: real)
    requires c < |prev.buffers| && 0 < bytesPerItem && sampRate > 0.0
  {
    match ArrivalAt(wire, k)
    case Timeout => md == NO_METADATA.(errorCode := ERROR_TIMEOUT)
    case Malformed => md == NO_METADATA.(errorCode := ERROR_BAD_PACKET)
    case Got(p) =>
      if !p.isData then
        md == NO_METADATA.(hasTimeSpec := p.hasTsf, timeSpec := p.time, errorCode := p.code)
      else if p.count != ExpectedCount(wire, k) then
        md == NO_METADATA.(hasTimeSpec := prev.md.hasTimeSpec,
                           timeSpec := GapTime(prev, c, bytesPerItem, sampRate),
                           outOfSequence := true, errorCode := ERROR_OVERFLOW)
      else
        md == NO_METADATA.(errorCode := ERROR_ALIGNMENT)
  }

  const NO_PACKET := Packet(true, 0, false, false, 0.0, false, false, 0, [])

  function EmptySlot(n: nat): Slot {
    Slot(seq(n, _ => BufferInfo(false, NO_PACKET, 0.0, 0)), seq(n, _ => true), 0.0, false, 0, 0, NO_METADATA)
  }

  function FirstTodo(todo: seq<bool>, from: nat := 0): (i: nat)
    requires from <= |todo|
    ensures from <= i <= |todo|
    ensures forall j | from <= j < i :: !todo[j]
    ensures i < |todo| ==> todo[i]
    decreases |todo| - from
  {
    if from == |todo| || todo[from] then from else FirstTodo(todo, from + 1)
  }

  ghost function Sum(s: seq<nat>): nat {
    if s == [] then 0 else s[0] + Sum(s[1..])
  }

  lemma {:induction false} SumUpdate(s: seq<nat>, i: nat, v: nat)
    requires i < |s|
    ensures Sum(s[i := v]) == Sum(s) - s[i] + v
  {
    if i == 0 {
      assert s[i := v][1..] == s[1..];
    } else {
      SumUpdate(s[1..], i - 1, v);
      assert s[i := v][1..] == s[1..][i - 1 := v];
    }
  }

  lemma {:induction false} SumBounded(s: seq<nat>, t: seq<nat>)
    requires |s| == |t| && forall i | 0 <= i < |s| :: s[i] <= t[i]
    ensures Sum(s) <= Sum(t)
  {
    if s != [] { SumBounded(s[1..], t[1..]); }
  }

  ghost predicate AllTicked(s: Slot) {
    forall i | 0 <= i < |s.todo| :: !s.todo[i]
  }

  /** Work left for `Recv`: unread arrivals, and a set in the next slot that was
      completed while an error was reported. */
  ghost function Backlog(wires: seq<seq<Arrival>>, pos: seq<nat>, next: Slot): int {
    2 * (Sum(seq(|wires|, i requires 0 <= i < |wires| => |wires[i]|)) - Sum(pos)) + if AllTicked(next) then 1 else 0
  }

  lemma BacklogNonNegative(wires: seq<seq<Arrival>>, pos: seq<nat>, next: Slot)
    requires |pos| == |wires| && forall i | 0 <= i < |wires| :: pos[i] <= |wires[i]|
    ensures Backlog(wires, pos, next) >= 0
  {
    SumBounded(pos, seq(|wires|, i requires 0 <= i < |wires| => |wires[i]|));
  }

  /** Between two positions of the wires everything but arrival `k` of channel
      `c` is a data packet in sequence. */
  ghost predicate CleanBut(wires: seq<seq<Arrival>>, from: seq<nat>, to: seq<nat>, c: nat, k: nat) {
    && |from| == |to| == |wires|
    && forall i | 0 <= i < |wires| :: CleanRun(wires[i], from[i], to[i], i == c, k)
  }

  ghost predicate CleanRun(wire: seq<Arrival>, from: nat, to: nat, hasExcept: bool, k: nat) {
    from <= to <= |wire| && forall j | from <= j < to && !(hasExcept && j == k) :: Clean(wire, j)
  }

  lemma CleanButStep(wires: seq<seq<Arrival>>, from: seq<nat>, to: seq<nat>, c: nat, k: nat)
    requires CleanBut(wires, from, to, |wires|, k) && c < |wires|
    ensures var after := to[c := Advance(wires[c], to[c])];
            && CleanBut(wires, from, after, c, to[c])
            && Sum(after) == Sum(to) + (if to[c] < |wires[c]| then 1 else 0)
            && (Clean(wires[c], to[c]) ==> CleanBut(wires, from, after, |wires|, 0))
  {
    var after := to[c := Advance(wires[c], to[c])];
    SumUpdate(to, c, Advance(wires[c], to[c]));
    forall i | 0 <= i < |wires|
      ensures CleanRun(wires[i], from[i], after[i], i == c, to[c])
      ensures Clean(wires[c], to[c]) ==> CleanRun(wires[i], from[i], after[i], false, 0)
    {
      assert CleanRun(wires[i], from[i], to[i], false, k);
    }
  }

  /** `count` arrivals were read, every one a data packet in sequence. */
  ghost predicate Passed(wires: seq<seq<Arrival>>, from: seq<nat>, to: seq<nat>, count: nat) {
    CleanBut(wires, from, to, |wires|, 0) && Sum(to) == Sum(from) + count
  }

  lemma NothingPassed(wires: seq<seq<Arrival>>, pos: seq<nat>)
    requires |pos| == |wires| && forall i | 0 <= i < |wires| :: pos[i] <= |wires[i]|
    ensures Passed(wires, pos, pos, 0)
  {
  }

  /** The call ended with arrival `k` of channel `c`, reported as `md`: all
      others read were data packets in sequence, and if this one was too, the
      limit on packets had been reached. */
  ghost predicate Stopped(wires: seq<seq<Arrival>>, from: seq<nat>, to: seq<nat>, threshold: nat, c: nat, k: nat,
                          md: Metadata, prev: Slot, bytesPerItem: nat, sampRate: real)
  {
    && CleanBut(wires, from, to, c, k)
    && c < |wires| == |prev.buffers| && 0 < bytesPerItem && sampRate > 0.0
    && from[c] <= k && to[c] == Advance(wires[c], k)
    && Reports(md, wires[c], k, prev, c, bytesPerItem, sampRate)
    && Sum(to) <= Sum(from) + threshold + 2
    && (Clean(wires[c], k) ==> Sum(to) == Sum(from) + threshold + 2)
    && (k < |wires[c]| ==> Sum(from) < Sum(to))
  }

  lemma StopAdvances(wires: seq<seq<Arrival>>, from: seq<nat>, to: seq<nat>, threshold: nat, c: nat, k: nat,
                     md: Metadata, prev: Slot, bytesPerItem: nat, sampRate: real)
    requires Stopped(wires, from, to, threshold, c, k, md, prev, bytesPerItem, sampRate)
    ensures md.errorCode == ERROR_NONE ==> Sum(from) < Sum(to)
  {
  }

  lemma PassAdvances(wires: seq<seq<Arrival>>, from: seq<nat>, to: seq<nat>, count: nat)
    requires Passed(wires, from, to, count)
    ensures Sum(to) == Sum(from) + count
  {
  }

  lemma PassOrStop(wires: seq<seq<Arrival>>, from: seq<nat>, to: seq<nat>, count: nat, threshold: nat, c: nat,
                   report: Option<Metadata>, prev: Slot, bytesPerItem: nat, sampRate: real)
    requires Passed(wires, from, to, count) && count <= threshold + 1
    requires c < |wires| == |prev.buffers| && 0 < bytesPerItem && sampRate > 0.0
    requires report.None? <==> Clean(wires[c], to[c])
    requires report.Some? ==> Reports(report.value, wires[c], to[c], prev, c, bytesPerItem, sampRate)
    ensures var after := to[c := Advance(wires[c], to[c])];
            && (report.Some? ==> Stopped(wires, from, after, threshold, c, to[c], report.value, prev, bytesPerItem,
                                         sampRate))
            && (report.None? ==> Passed(wires, from, after, count + 1))
            && (report.None? && count == threshold + 1 ==>
                  Stopped(wires, from, after, threshold, c, to[c], NO_METADATA.(errorCode := ERROR_ALIGNMENT),
                          prev, bytesPerItem, sampRate))
  {
    CleanButStep(wires, from, to, c, 0);
    assert CleanRun(wires[c], from[c], to[c], false, 0);
    hide CleanBut;
  }

  /** Cells `from..to` of channel `i`'s output buffer. */
  ghost function Row(buffs: array2<Item>, i: nat, from: nat, to: nat): (r: seq<Item>)
    requires i < buffs.Length0 && from <= to <= buffs.Length1
    reads buffs
    ensures |r| == to - from
  {
    seq(to - from, k requires 0 <= k < to - from reads buffs => buffs[i, from + k])
  }

  /** The ring position `k` slots after `index`. */
  function Ahead(index: nat, k: nat): (r: nat)
    requires k < 4 && index < 4
    ensures r < 4 && r == (index + k) % 4
  {
    if index + k < 4 then index + k else index + k - 4
  }

  ghost predicate RingSized(ring: seq<Slot>, index: nat, n: nat) {
    |ring| == 4 && index < 4 && forall k | 0 <= k < 4 :: ring[k].Sized(n)
  }

  /** The ring between two calls. */
  ghost predicate AtRest(ring: seq<Slot>, index: nat, sets: seq<AlignedSet>, hist: seq<seq<Packet>>,
                         delivered: seq<seq<Item>>, bytesPerItem: nat)
  {
    && RingSized(ring, index, |hist|)
    && SlotsOk(ring[index], ring[Ahead(index, 1)], ring[Ahead(index, 2)], sets, hist, delivered, bytesPerItem)
  }

  /** The ring while a set is being assembled in the current slot. */
  ghost predicate Assembling(ring: seq<Slot>, index: nat, sets: seq<AlignedSet>, hist: seq<seq<Packet>>,
                             delivered: seq<seq<Item>>, bytesPerItem: nat)
  {
    && RingSized(ring, index, |hist|)
    && SlotsOk(ring[Ahead(index, 3)], ring[index], ring[Ahead(index, 1)], sets, hist, delivered, bytesPerItem)
    && ring[Ahead(index, 3)].dataBytes == 0 && ring[Ahead(index, 2)].IsReset()
  }

  predicate IsDataKind(kind: PacketKind) {
    kind.IfData? || kind.SequenceError? || kind.TimestampError?
  }

  /** A set under assembly after a classified arrival on channel `c`. */
  function AfterArrival(s: Slot, c: nat, kind: PacketKind, info: BufferInfo, bytesPerItem: nat): Slot
    requires c < |s.buffers| && c < |s.todo|
  {
    if IsDataKind(kind) then Received(s, c, info.packet, kind.TimestampError?, bytesPerItem)
    else s.(buffers := s.buffers[c := info])
  }

  /** Nothing is under assembly and every channel's next arrival is a data packet
      in sequence, all with one timestamp. */
  ghost predicate Lockstep(wires: seq<seq<Arrival>>, pos: seq<nat>, curr: Slot) {
    && |wires| == |pos| == |curr.todo| == |curr.buffers|
    && !curr.alignValid && (forall i | 0 <= i < |curr.todo| :: curr.todo[i])
    && (forall i | 0 <= i < |wires| :: Clean(wires[i], pos[i]))
    && (forall i | 0 <= i < |wires| :: NextPacket(wires, pos, i).time == NextPacket(wires, pos, 0).time)
  }

  ghost function NextPacket(wires: seq<seq<Arrival>>, pos: seq<nat>, i: nat): Packet
    requires |wires| == |pos|
  {
    if i < |wires| && pos[i] < |wires[i]| && wires[i][pos[i]].Got? then wires[i][pos[i]].packet else NO_PACKET
  }

  /** The first `m` channels have been read since, and make up the set so far;
      channel zero gave the byte count. */
  ghost predicate InStep(wires: seq<seq<Arrival>>, from: seq<nat>, to: seq<nat>, curr: Slot, m: nat,
                         bytesPerItem: nat) {
    && m <= |wires| == |from| == |to| == |curr.todo| == |curr.buffers|
    && (forall i | 0 <= i < |wires| :: curr.todo[i] == (m <= i) && to[i] == if i < m then from[i] + 1 else from[i])
    && (forall i | 0 <= i < m :: curr.buffers[i] == FreshBuffer(NextPacket(wires, from, i)))
    && if m == 0 then !curr.alignValid
       else curr.alignValid && curr.alignTime == NextPacket(wires, from, 0).time
            && curr.dataBytes == |NextPacket(wires, from, 0).payload| * bytesPerItem
  }

  lemma NotYetInStep(wires: seq<seq<Arrival>>, pos: seq<nat>, curr: Slot, bytesPerItem: nat)
    ensures Lockstep(wires, pos, curr) ==> InStep(wires, pos, pos, curr, 0, bytesPerItem)
  {
  }

  lemma FirstIsNext(wires: seq<seq<Arrival>>, from: seq<nat>, to: seq<nat>, curr: Slot, m: nat, bytesPerItem: nat)
    requires InStep(wires, from, to, curr, m, bytesPerItem)
    ensures FirstTodo(curr.todo) == m
  {
    var f := FirstTodo(curr.todo);
    assert m < |curr.todo| ==> curr.todo[m];
    assert f < |curr.todo| ==> curr.todo[f];
  }

  lemma AllInStep(wires: seq<seq<Arrival>>, from: seq<nat>, to: seq<nat>, curr: Slot, m: nat, bytesPerItem: nat)
    requires InStep(wires, from, to, curr, m, bytesPerItem) && AllTicked(curr)
    ensures m == |wires|
  {
    FirstIsNext(wires, from, to, curr, m, bytesPerItem);
  }

  lemma StepOn(wires: seq<seq<Arrival>>, from: seq<nat>, to: seq<nat>, start: Slot, curr: Slot, m: nat, restart: bool,
               bytesPerItem: nat)
    requires Lockstep(wires, from, start) && InStep(wires, from, to, curr, m, bytesPerItem) && m < |wires|
    ensures FirstTodo(curr.todo) == m && Clean(wires[m], to[m])
    ensures InStep(wires, from, to[m := Advance(wires[m], to[m])],
                   Received(curr, m, NextPacket(wires, to, m), restart, bytesPerItem), m + 1, bytesPerItem)
  {
    assert to[m] == from[m] && Clean(wires[m], from[m]);
    assert NextPacket(wires, to, m) == NextPacket(wires, from, m);
    assert NextPacket(wires, from, m).time == NextPacket(wires, from, 0).time;
  }

  /** Set `a` is made of the next arrivals of all channels, and channel zero gave
      the item count. */
  ghost predicate IsNextSet(a: AlignedSet, wires: seq<seq<Arrival>>, pos: seq<nat>) {
    && |a.packets| == |wires| == |pos|
    && (forall i | 0 <= i < |wires| :: a.packets[i] == NextPacket(wires, pos, i))
    && a.time == NextPacket(wires, pos, 0).time && a.items == |NextPacket(wires, pos, 0).payload|
  }

  lemma LockstepSet(wires: seq<seq<Arrival>>, from: seq<nat>, to: seq<nat>, curr: Slot, hist: seq<seq<Packet>>,
                    bytesPerItem: nat)
    requires InStep(wires, from, to, curr, |wires|, bytesPerItem) && 0 < |hist| == |wires| && 0 < bytesPerItem
    ensures IsNextSet(CompletedSet(curr, hist, bytesPerItem), wires, from)
    ensures forall i | 0 <= i < |wires| :: to[i] == from[i] + 1
  {
    var a := CompletedSet(curr, hist, bytesPerItem);
    Arith.MultipleDivides(|NextPacket(wires, from, 0).payload|, bytesPerItem);
    forall i | 0 <= i < |wires| ensures a.packets[i] == NextPacket(wires, from, i) && to[i] == from[i] + 1 {
      assert curr.buffers[i] == FreshBuffer(NextPacket(wires, from, i));
      assert curr.todo[i] == (|wires| <= i);
    }
  }

  lemma EnterAssembling(
    ring: seq<Slot>, index: nat, sets: seq<AlignedSet>, hist: seq<seq<Packet>>, delivered: seq<seq<Item>>,
    bytesPerItem: nat)
    requires AtRest(ring, index, sets, hist, delivered, bytesPerItem) && ring[index].dataBytes == 0
    ensures var after := ring[Ahead(index, 3) := ring[Ahead(index, 3)].Reset()];
            && Assembling(after, Ahead(index, 1), sets, hist, delivered, bytesPerItem)
            && after[Ahead(Ahead(index, 1), 3)] == ring[index]
            && after[Ahead(index, 1)] == ring[Ahead(index, 1)]
  {
    ResetIsReset(ring[Ahead(index, 3)]);
  }

  lemma ArrivalKeepsRing(
    ring: seq<Slot>, index: nat, sets: seq<AlignedSet>, hist: seq<seq<Packet>>, delivered: seq<seq<Item>>,
    c: nat, kind: PacketKind, info: BufferInfo, bytesPerItem: nat)
    requires Assembling(ring, index, sets, hist, delivered, bytesPerItem)
    requires c < |hist| && ring[index].todo[c]
    requires kind.TimestampError? ==> ring[Ahead(index, 3)].buffers[c].time > info.packet.time
    ensures Assembling(ring[index := AfterArrival(ring[index], c, kind, info, bytesPerItem)], index, sets,
                       if IsDataKind(kind) then Taken(hist, c, info.packet) else hist, delivered, bytesPerItem)
  {
    var prev, curr, spare := ring[Ahead(index, 3)], ring[index], ring[Ahead(index, 1)];
    if IsDataKind(kind) {
      ReceivedKeepsSlots(prev, curr, spare, sets, hist, delivered, c, info.packet, kind.TimestampError?, bytesPerItem);
    } else {
      OverwriteKeepsSlots(prev, curr, spare, sets, hist, delivered, c, info, bytesPerItem);
    }
  }

  /** The ring after the progress moved to the next slot and a report stayed. */
  function Swapped(ring: seq<Slot>, index: nat, md: Metadata): seq<Slot>
    requires |ring| == 4 && index < 4
  {
    ring[index := ring[Ahead(index, 1)].(md := md)][Ahead(index, 1) := ring[index]]
  }

  lemma ReportRestsRing(
    ring: seq<Slot>, index: nat, md: Metadata, sets: seq<AlignedSet>, hist: seq<seq<Packet>>,
    delivered: seq<seq<Item>>, bytesPerItem: nat)
    requires Assembling(ring, index, sets, hist, delivered, bytesPerItem)
    ensures AtRest(Swapped(ring, index, md), index, sets, hist, delivered, bytesPerItem)
    ensures Swapped(ring, index, md)[index].IsReportOnly()
  {
    ReportKeepsSlots(ring[Ahead(index, 3)], ring[index], ring[Ahead(index, 1)], ring[Ahead(index, 2)], md,
                     sets, hist, delivered, bytesPerItem);
  }

  lemma CompletionRestsRing(
    ring: seq<Slot>, index: nat, sets: seq<AlignedSet>, hist: seq<seq<Packet>>, delivered: seq<seq<Item>>,
    bytesPerItem: nat)
    requires Assembling(ring, index, sets, hist, delivered, bytesPerItem)
    requires AllTicked(ring[index])
    ensures var done := ring[index].(md := SetMetadata(ring[index].buffers[0]));
            && AtRest(ring[index := done], index, sets + [CompletedSet(ring[index], hist, bytesPerItem)],
                      hist, delivered, bytesPerItem)
            && HandsOut(done, CompletedSet(ring[index], hist, bytesPerItem), bytesPerItem)
            && done.fragmentOffset == 0
            && !AllTicked(ring[Ahead(index, 1)])
  {
    assert ring[Ahead(index, 1)].todo[0];
    CompletionKeepsSlots(ring[Ahead(index, 3)], ring[index], ring[Ahead(index, 1)], ring[Ahead(index, 2)],
                         sets, hist, delivered, bytesPerItem);
    CompletedSetOk(ring[index], sets, hist, bytesPerItem);
  }

  /** Channel `c`'s buffer record after `bytes` of it were converted. */
  function Consumed(s: Slot, c: nat, bytes: nat): BufferInfo
    requires c < |s.buffers|
  {
    s.buffers[c].(copyPos := s.buffers[c].copyPos + bytes, held := s.buffers[c].held && s.dataBytes != bytes)
  }

  /** The slot after the first `c` channels were converted. */
  function PartConsumed(s: Slot, c: nat, bytes: nat): Slot {
    s.(buffers := seq(|s.buffers|, j requires 0 <= j < |s.buffers| =>
      if j < c then Consumed(s, j, bytes) else s.buffers[j]))
  }

  /** How many items per channel a call takes from the current slot. */
  function Takes(cur: Slot, nsamps: nat, bytesPerItem: nat): (count: nat)
    requires 0 < bytesPerItem
    ensures count <= nsamps && count * bytesPerItem <= cur.dataBytes
  {
    var available := cur.dataBytes / bytesPerItem;
    assert available * bytesPerItem <= cur.dataBytes;
    if nsamps < available then (Arith.MulMonotone(nsamps, available, bytesPerItem); nsamps) else available
  }

  /** The metadata of a fragment: the slot's own, with the time interpolated. */
  function FragmentMetadata(cur: Slot, more: bool, sampRate: real): Metadata
    requires sampRate > 0.0
  {
    cur.md.(timeSpec := cur.md.timeSpec + cur.fragmentOffset as real / sampRate,
            moreFragments := more, fragmentOffset := cur.fragmentOffset)
  }

  lemma CopyRestsRing(
    ring: seq<Slot>, index: nat, sets: seq<AlignedSet>, hist: seq<seq<Packet>>, delivered: seq<seq<Item>>,
    count: nat, bytesPerItem: nat)
    requires AtRest(ring, index, sets, hist, delivered, bytesPerItem)
    requires count <= ring[index].dataBytes / bytesPerItem
    ensures count * bytesPerItem <= ring[index].dataBytes
    ensures AtRest(ring[index := Copied(ring[index], count, bytesPerItem)], index, sets, hist,
                   HandedOut(delivered, ring[index], count), bytesPerItem)
    ensures forall i | 0 <= i < |hist| :: ring[index].buffers[i].copyPos / bytesPerItem == ring[index].fragmentOffset
  {
    CopyKeepsSlots(ring[index], ring[Ahead(index, 1)], ring[Ahead(index, 2)], sets, hist, delivered, count,
                   bytesPerItem);
    forall i | 0 <= i < |hist| ensures ring[index].buffers[i].copyPos / bytesPerItem == ring[index].fragmentOffset {
      ReadPosition(ring[index], sets, bytesPerItem, i);
    }
  }

  /** `count` items of the latest set, the most that fit, described by `md`: place
      and time are those of the stretch, the flags those of channel zero. */
  ghost predicate Fragment(sets: seq<AlignedSet>, nsamps: nat, count: nat, md: Metadata, sampRate: real)
    requires sampRate > 0.0
  {
    && sets != []
    && var a := sets[|sets| - 1];
    && 0 < |a.packets|
    && md.hasTimeSpec == a.packets[0].hasTsf && md.startOfBurst == a.packets[0].sob
    && md.endOfBurst == a.packets[0].eob && !md.outOfSequence
    && md.fragmentOffset + count <= a.items
    && (count < nsamps ==> md.fragmentOffset + count == a.items)
    && (md.moreFragments <==> md.fragmentOffset + count < a.items)
    && md.timeSpec == a.time + md.fragmentOffset as real / sampRate
    && md.errorCode == ERROR_NONE
  }

  lemma TakenFragment(
    ring: seq<Slot>, index: nat, sets: seq<AlignedSet>, hist: seq<seq<Packet>>, delivered: seq<seq<Item>>,
    nsamps: nat, bytesPerItem: nat, sampRate: real)
    requires AtRest(ring, index, sets, hist, delivered, bytesPerItem) && sampRate > 0.0
    ensures var cur := ring[index];
            var count := Takes(cur, nsamps, bytesPerItem);
            var left := Copied(cur, count, bytesPerItem).dataBytes;
            && (cur.dataBytes == 0 ==> count == 0)
            && (cur.dataBytes != 0 && nsamps > 0 ==> count > 0)
            && (cur.dataBytes != 0 ==> sets != [] && HandsOut(cur, sets[|sets| - 1], bytesPerItem))
            && FragmentMetadata(cur, left != 0, sampRate).fragmentOffset == cur.fragmentOffset
            && FragmentMetadata(cur, left != 0, sampRate).errorCode == cur.md.errorCode
            && (sets != [] && HandsOut(cur, sets[|sets| - 1], bytesPerItem) ==>
                  && cur.md.errorCode == ERROR_NONE
                  && Fragment(sets, nsamps, count, FragmentMetadata(cur, left != 0, sampRate), sampRate))
  {
    hide HandsOut, CurrentOk, Copied, Fragment;
    var cur := ring[index];
    var count := Takes(cur, nsamps, bytesPerItem);
    CurrentHandsOut(cur, sets, bytesPerItem);
    if cur.dataBytes == 0 {
      Arith.MultipleDivides(0, bytesPerItem);
    }
    if sets != [] && HandsOut(cur, sets[|sets| - 1], bytesPerItem) {
      StretchOfSet(cur, sets, nsamps, bytesPerItem, sampRate);
    }
  }

  lemma CurrentHandsOut(cur: Slot, sets: seq<AlignedSet>, bytesPerItem: nat)
    requires CurrentOk(cur, sets, bytesPerItem)
    ensures cur.dataBytes != 0 ==> sets != [] && HandsOut(cur, sets[|sets| - 1], bytesPerItem)
  {
  }

  lemma StretchOfSet(cur: Slot, sets: seq<AlignedSet>, nsamps: nat, bytesPerItem: nat, sampRate: real)
    requires 0 < bytesPerItem && sampRate > 0.0 && sets != [] && HandsOut(cur, sets[|sets| - 1], bytesPerItem)
    ensures var count := Takes(cur, nsamps, bytesPerItem);
            var left := Copied(cur, count, bytesPerItem).dataBytes;
            && (cur.dataBytes != 0 && nsamps > 0 ==> count > 0)
            && cur.md.errorCode == ERROR_NONE
            && Fragment(sets, nsamps, count, FragmentMetadata(cur, left != 0, sampRate), sampRate)
  {
    var a, count := sets[|sets| - 1], Takes(cur, nsamps, bytesPerItem);
    LeftOf(cur, sets, bytesPerItem);
    CopiedHandsOut(cur, a, count, bytesPerItem);
    LeftOf(Copied(cur, count, bytesPerItem), sets, bytesPerItem);
    assert ChannelHandsOut(cur, a, bytesPerItem, 0);
  }

  /** A slot with only a report hands the report out unchanged. */
  lemma ReportHandedOut(cur: Slot, wires: seq<seq<Arrival>>, from: seq<nat>, to: seq<nat>, threshold: nat, c: nat,
                        k: nat, prev: Slot, bytesPerItem: nat, sampRate: real, count: nat)
    requires cur.IsReportOnly() && count * bytesPerItem <= cur.dataBytes
    requires Stopped(wires, from, to, threshold, c, k, cur.md, prev, bytesPerItem, sampRate)
    ensures FragmentMetadata(cur, Copied(cur, count, bytesPerItem).dataBytes != 0, sampRate) == cur.md
  {
    assert Reports(cur.md, wires[c], k, prev, c, bytesPerItem, sampRate);
  }

  /** An inline message whose context code says that nothing is wrong. */
  ghost predicate SilentAt(wire: seq<Arrival>, k: nat) {
    k < |wire| && wire[k].Got? && !wire[k].packet.isData && wire[k].packet.code == ERROR_NONE
  }

  /** Nothing read between two positions of the wires was an error: data packets
      in sequence and silent messages only. */
  ghost predicate Quiet(wires: seq<seq<Arrival>>, from: seq<nat>, to: seq<nat>) {
    |from| == |to| == |wires| && forall i | 0 <= i < |wires| :: QuietRun(wires[i], from[i], to[i])
  }

  ghost predicate QuietRun(wire: seq<Arrival>, from: nat, to: nat) {
    from <= to <= |wire| && forall j | from <= j < to :: Clean(wire, j) || SilentAt(wire, j)
  }

  lemma StillQuiet(wires: seq<seq<Arrival>>, pos: seq<nat>)
    requires |pos| == |wires| && forall i | 0 <= i < |wires| :: pos[i] <= |wires[i]|
    ensures Quiet(wires, pos, pos)
  {
  }

  lemma QuietOn(wires: seq<seq<Arrival>>, a: seq<nat>, b: seq<nat>, c: seq<nat>)
    requires Quiet(wires, a, b) && Quiet(wires, b, c)
    ensures Quiet(wires, a, c)
  {
    forall i | 0 <= i < |wires| ensures QuietRun(wires[i], a[i], c[i]) {
      assert QuietRun(wires[i], a[i], b[i]) && QuietRun(wires[i], b[i], c[i]);
    }
  }

  lemma PassedIsQuiet(wires: seq<seq<Arrival>>, from: seq<nat>, to: seq<nat>, count: nat)
    requires Passed(wires, from, to, count)
    ensures Quiet(wires, from, to)
  {
    forall i | 0 <= i < |wires| ensures QuietRun(wires[i], from[i], to[i]) {
      assert CleanRun(wires[i], from[i], to[i], i == |wires|, 0);
    }
  }

  /** A call that stops without an error code has met a silent message. */
  lemma SilentIsQuiet(wires: seq<seq<Arrival>>, from: seq<nat>, to: seq<nat>, threshold: nat, c: nat, k: nat,
                      md: Metadata, prev: Slot, bytesPerItem: nat, sampRate: real)
    requires Stopped(wires, from, to, threshold, c, k, md, prev, bytesPerItem, sampRate)
    requires md.errorCode == ERROR_NONE
    ensures SilentAt(wires[c], k) && Quiet(wires, from, to)
  {
    assert Reports(md, wires[c], k, prev, c, bytesPerItem, sampRate);
    forall i | 0 <= i < |wires| ensures QuietRun(wires[i], from[i], to[i]) {
      assert CleanRun(wires[i], from[i], to[i], i == c, k);
    }
  }

  /** Where and on what a call stopped: the positions of the wires when the last
      attempt began, the arrival `k` of channel `c`, and the slot before. */
  datatype Halt = Halt(from: seq<nat>, c: nat, k: nat, prev: Slot)

  /** What the metadata of a call are about. */
  datatype Head = Head(first: nat, known: nat, to: seq<nat>, c: nat, k: nat)

  lemma CurrentIsOk(ring: seq<Slot>, index: nat, sets: seq<AlignedSet>, hist: seq<seq<Packet>>,
                    delivered: seq<seq<Item>>, bytesPerItem: nat)
    requires AtRest(ring, index, sets, hist, delivered, bytesPerItem)
    ensures CurrentOk(ring[index], sets, bytesPerItem)
  {
  }

  /** The wire was read up to its first timeout after `from`, or to its end. */
  ghost predicate Drained(wire: seq<Arrival>, from: nat, to: nat) {
    && from <= to <= |wire|
    && (to < |wire| ==> from < to)
    && (forall j | from <= j < to - 1 :: !wire[j].Timeout?)
    && (to == |wire| || wire[to - 1].Timeout?)
  }

  lemma ThreeResets(
    ring: seq<Slot>, index: nat, sets: seq<AlignedSet>, hist: seq<seq<Packet>>, delivered: seq<seq<Item>>,
    bytesPerItem: nat)
    requires AtRest(ring, index, sets, hist, delivered, bytesPerItem)
    ensures var after := ring[Ahead(index, 3) := ring[Ahead(index, 3)].Reset()]
                             [index := ring[index].Reset()]
                             [Ahead(index, 1) := ring[Ahead(index, 1)].Reset()];
            var none := seq(|hist|, _ => []);
            && (forall k | 0 <= k < 4 :: after[k].IsReset())
            && RingSized(after, index, |hist|)
            && AtRest(after, index, [], none, seq(|hist|, _ => []), bytesPerItem)
  {
    ResetIsReset(ring[Ahead(index, 3)]);
    ResetIsReset(ring[index]);
    ResetIsReset(ring[Ahead(index, 1)]);
    EmptyProgress(ring[Ahead(index, 1)].Reset(), seq(|hist|, _ => []), Base([], |hist|), bytesPerItem);
  }

  lemma ConsumedIsCopied(s: Slot, count: nat, bytesPerItem: nat)
    requires count * bytesPerItem <= s.dataBytes
    ensures PartConsumed(s, |s.buffers|, count * bytesPerItem).(
              dataBytes := s.dataBytes - count * bytesPerItem, fragmentOffset := s.fragmentOffset + count)
         == Copied(s, count, bytesPerItem)
  {
    assert PartConsumed(s, |s.buffers|, count * bytesPerItem).buffers == Copied(s, count, bytesPerItem).buffers;
  }

  class Handler {
    const n: nat
    const bytesPerItem: nat
    const sampRate: real
    const threshold: nat
    const wires: seq<seq<Arrival>>

    var ring: seq<Slot>
    var index: nat
    var packetCount: seq<nat>
    var pos: seq<nat>
    var queueError: bool
    var queueMd: Metadata

    /** Wire positions at the last flush. */
    ghost var start: seq<nat>
    /** Data packets each channel has yielded since the last flush. */
    ghost var hist: seq<seq<Packet>>
    /** Sets completed since the last flush. */
    ghost var sets: seq<AlignedSet>
    /** Items handed to the caller since the last flush. */
    ghost var delivered: seq<seq<Item>>

    ghost predicate ConfigOk() {
      0 < n == |wires| && 0 < bytesPerItem && sampRate > 0.0
    }

    ghost predicate FeedOk()
      reads this
    {
      && ConfigOk()
      && |packetCount| == |pos| == |start| == |hist| == n
      && forall i | 0 <= i < n :: ChannelOk(wires[i], start[i], pos[i], hist[i], packetCount[i])
    }

    /** The invariant between calls. */
    ghost predicate Valid()
      reads this
    {
      && FeedOk() && RingSized(ring, index, n) && |delivered| == n
      && AtRest(ring, index, sets, hist, delivered, bytesPerItem)
    }

    ghost predicate Busy()
      reads this
    {
      && FeedOk() && RingSized(ring, index, n) && |delivered| == n
      && Assembling(ring, index, sets, hist, delivered, bytesPerItem)
    }

    ghost predicate QueueOk()
      reads this
    {
      queueError ==> queueMd.errorCode != ERROR_NONE
    }

    lemma PositionsBounded()
      requires FeedOk()
      ensures forall i | 0 <= i < n :: pos[i] <= |wires[i]|
    {
      assert forall i | 0 <= i < n :: ChannelOk(wires[i], start[i], pos[i], hist[i], packetCount[i]);
    }

    constructor (wires: seq<seq<Arrival>>, bytesPerItem: nat, sampRate: real, perChannelThreshold: nat)
      requires 0 < |wires| && 0 < bytesPerItem && sampRate > 0.0
      ensures Valid()
      ensures this.wires == wires && this.bytesPerItem == bytesPerItem && this.sampRate == sampRate
      ensures this.threshold == perChannelThreshold * |wires|
      ensures !queueError && sets == [] && forall k | 0 <= k < 4 :: ring[k].IsReset()
      ensures forall k, i | 0 <= k < 4 && 0 <= i < |wires| :: ring[k].buffers[i].packet.payload == []
      ensures forall i | 0 <= i < |wires| :: delivered[i] == [] && pos[i] == 0
    {
      this.n := |wires|;
      this.wires := wires;
      this.bytesPerItem := bytesPerItem;
      this.sampRate := sampRate;
      this.threshold := perChannelThreshold * |wires|;
      ring := seq(4, _ => EmptySlot(|wires|));
      index := 0;
      packetCount := seq(|wires|, _ => 0);
      pos := seq(|wires|, _ => 0);
      queueError := false;
      queueMd := NO_METADATA;
      start := seq(|wires|, _ => 0);
      hist := seq(|wires|, _ => []);
      sets := [];
      delivered := seq(|wires|, _ => []);
      new;
      EmptyProgress(ring[1], hist, Base(sets, n), bytesPerItem);
    }

    /** Receives one arrival on channel `c`, stores it in a buffer record and
        classifies it against the channel's expected count and `prevTime`. */
    method GetSinglePacket(c: nat, prevTime: real, info: BufferInfo) returns (kind: PacketKind, r: BufferInfo)
      requires FeedOk() && c < n
      modifies `pos, `packetCount, `hist
      ensures FeedOk()
      ensures pos == old(pos)[c := Advance(wires[c], old(pos[c]))]
      ensures var a := ArrivalAt(wires[c], old(pos[c]));
              && r == Stored(a, info)
              && kind == Verdict(a, ExpectedCount(wires[c], old(pos[c])), prevTime)
              && hist == if a.Got? && a.packet.isData then Taken(old(hist), c, a.packet) else old(hist)
      ensures var a := ArrivalAt(wires[c], old(pos[c]));
              if a.Got? && a.packet.isData then
                var p, expected := a.packet, old(packetCount[c]);
                && packetCount == old(packetCount)[c := (p.count + 1) % (if p.chdrLink then 4096 else 16)]
                && (kind.SequenceError? <==> p.count != expected)
                && (kind.TimestampError? <==> p.count == expected && p.hasTsf && p.time < prevTime)
                && r.packet == p && r.time == p.time && r.copyPos == 0 && r.held
              else
                && packetCount == old(packetCount) && (kind.InlineMessage? <==> a.Got?)
                && (kind.TimeoutError? <==> a.Timeout?) && (!a.Got? ==> r == info.(held := a.Malformed?))
    {
      ChannelStep(wires[c], start[c], pos[c], hist[c], packetCount[c]);
      var a := ArrivalAt(wires[c], pos[c]);
      pos := pos[c := Advance(wires[c], pos[c])];
      r := Stored(a, info);
      if a.Timeout? {
        kind := TimeoutError;
      } else if a.Malformed? {
        kind := Threw;
      } else {
        var p := a.packet;
        if !p.isData {
          kind := InlineMessage;
        } else {
          hist := Taken(hist, c, p);
          var expected := packetCount[c];
          packetCount := packetCount[c := NextCount(p)];
          if expected != p.count {
            kind := SequenceError;
          } else if p.hasTsf && prevTime > p.time {
            kind := TimestampError;
          } else {
            kind := IfData;
          }
        }
      }
    }

    method AlignmentCheck(c: nat)
      requires RingSized(ring, index, n) && c < n
      modifies `ring
      ensures ring == old(ring)[index := Checked(old(ring[index]), c, bytesPerItem)]
    {
      var info := ring[index];
      if !info.alignValid || info.buffers[c].time > info.alignTime {
        info := info.(alignValid := true,
                      alignTime := info.buffers[c].time,
                      todo := seq(n, _ => true)[c := false],
                      dataBytes := |info.buffers[c].packet.payload| * bytesPerItem);
        assert info.todo == seq(n, i => i != c);
      } else if info.buffers[c].time == info.alignTime {
        info := info.(todo := info.todo[c := false]);
      }
      ring := ring[index := info];
    }

    /** Stores a classified buffer record in the current slot and, for a data
        packet, runs the alignment check. */
    method StorePacket(c: nat, kind: PacketKind, info: BufferInfo)
      requires RingSized(ring, index, n) && c < n
      requires IsDataKind(kind) ==> info == FreshBuffer(info.packet)
      modifies `ring
      ensures ring == old(ring)[index := AfterArrival(old(ring[index]), c, kind, info, bytesPerItem)]
    {
      ring := ring[index := ring[index].(buffers := ring[index].buffers[c := info])];
      match kind
      case InlineMessage | TimeoutError | Threw =>
      case IfData | SequenceError =>
        AlignmentCheck(c);
      case TimestampError =>
        // the device clock was set back: forget the alignment time
        if ring[index].alignValid && ring[index].alignTime != ring[index].buffers[c].time {
          ring := ring[index := ring[index].(alignValid := false)];
        }
        AlignmentCheck(c);
    }

    /** Takes one arrival on an awaited channel into the current slot. */
    method TakePacket(c: nat) returns (kind: PacketKind)
      requires Busy() && c < n && ring[index].todo[c]
      modifies `ring, `pos, `packetCount, `hist
      ensures Busy()
      ensures pos == old(pos)[c := Advance(wires[c], old(pos[c]))]
      ensures kind == Verdict(ArrivalAt(wires[c], old(pos[c])), ExpectedCount(wires[c], old(pos[c])),
                              old(ring[Ahead(index, 3)].buffers[c].time))
      ensures ring[Ahead(index, 1)] == old(ring[Ahead(index, 1)]) && ring[Ahead(index, 3)] == old(ring[Ahead(index, 3)])
      ensures ring[index]
           == AfterArrival(old(ring[index]), c, kind,
                           Stored(ArrivalAt(wires[c], old(pos[c])), old(ring[index].buffers[c])), bytesPerItem)
    {
      hide Assembling, ChannelOk;
      var info;
      kind, info := GetSinglePacket(c, ring[Ahead(index, 3)].buffers[c].time, ring[index].buffers[c]);
      ArrivalKeepsRing(ring, index, sets, old(hist), delivered, c, kind, info, bytesPerItem);
      StorePacket(c, kind, info);
    }

    /** Swaps the progress into the next slot and leaves only a report behind. */
    method SaveProgress(md: Metadata)
      requires Busy()
      modifies `ring
      ensures Valid()
      ensures ring[index].IsReportOnly() && ring[index].md == md
      ensures ring[Ahead(index, 1)] == old(ring[index]) && ring[Ahead(index, 3)] == old(ring[Ahead(index, 3)])
    {
      hide Assembling, AtRest, ChannelOk;
      ReportRestsRing(ring, index, md, sets, hist, delivered, bytesPerItem);
      ring := ring[index := ring[Ahead(index, 1)].(md := md)][Ahead(index, 1) := ring[index]];
    }

    /** Takes one arrival on an awaited channel and words the report, if any,
        with which it ends the call. */
    method Attempt(c: nat) returns (report: Option<Metadata>)
      requires Busy() && c < n && ring[index].todo[c]
      modifies `ring, `pos, `packetCount, `hist
      ensures Busy()
      ensures pos == old(pos)[c := Advance(wires[c], old(pos[c]))]
      ensures ring[Ahead(index, 1)] == old(ring[Ahead(index, 1)]) && ring[Ahead(index, 3)] == old(ring[Ahead(index, 3)])
      ensures report.None? <==> Clean(wires[c], old(pos[c]))
      ensures report.None? ==>
                var p := NextPacket(wires, old(pos), c);
                var back := p.hasTsf && ring[Ahead(index, 3)].buffers[c].time > p.time;
                ring[index] == Received(old(ring[index]), c, p, back, bytesPerItem)
      ensures report.Some? ==> Reports(report.value, wires[c], old(pos[c]), ring[Ahead(index, 3)], c, bytesPerItem,
                                       sampRate)
    {
      hide Assembling, ChannelOk, GapTime, ExpectedCount;
      var prev := ring[Ahead(index, 3)];
      var kind := TakePacket(c);
      match kind
      case Threw =>
        report := Some(NO_METADATA.(errorCode := ERROR_BAD_PACKET));
      case IfData | TimestampError =>
        report := None;
      case InlineMessage =>
        var info := ring[index].buffers[c];
        report := Some(NO_METADATA.(hasTimeSpec := info.packet.hasTsf, timeSpec := info.time,
                                    errorCode := info.packet.code));
      case TimeoutError =>
        report := Some(NO_METADATA.(errorCode := ERROR_TIMEOUT));
      case SequenceError =>
        report := Some(NO_METADATA.(hasTimeSpec := prev.md.hasTimeSpec,
                                    timeSpec := GapTime(prev, c, bytesPerItem, sampRate),
                                    outOfSequence := true, errorCode := ERROR_OVERFLOW));
    }

    /** Resets the oldest slot and moves on to the next one. */
    method NextSlot()
      requires Valid() && ring[index].dataBytes == 0
      modifies `ring, `index
      ensures Busy() && ring[Ahead(index, 3)] == old(ring[index])
      ensures index == Ahead(old(index), 1) && ring[index] == old(ring[Ahead(index, 1)])
    {
      hide Assembling, AtRest, ChannelOk;
      EnterAssembling(ring, index, sets, hist, delivered, bytesPerItem);
      ring := ring[Ahead(index, 3) := ring[Ahead(index, 3)].Reset()];
      index := Ahead(index, 1);
    }

    /** Fills in the metadata of a fully ticked-off slot. */
    method Complete()
      requires Busy() && AllTicked(ring[index])
      modifies `ring, `sets
      ensures Valid()
      ensures sets == old(sets) + [CompletedSet(old(ring[index]), hist, bytesPerItem)]
      ensures HandsOut(ring[index], sets[|sets| - 1], bytesPerItem) && ring[index].fragmentOffset == 0
      ensures !AllTicked(ring[Ahead(index, 1)])
    {
      hide Assembling, AtRest, ChannelOk, HandsOut, CompletedSet, SetMetadata;
      CompletionRestsRing(ring, index, sets, hist, delivered, bytesPerItem);
      sets := sets + [CompletedSet(ring[index], hist, bytesPerItem)];
      assert sets[|sets| - 1] == CompletedSet(ring[index], hist, bytesPerItem);
      ring := ring[index := ring[index].(md := SetMetadata(ring[index].buffers[0]))];
    }

    /** The attempt on the first awaited channel; in lockstep it is the next one in
        order and its packet joins the set. */
    method AttemptFirst(c: nat, ghost lockstep: bool, ghost from: seq<nat>, ghost first: Slot, ghost m: nat)
      returns (report: Option<Metadata>)
      requires Busy() && c == FirstTodo(ring[index].todo) < n
      requires lockstep ==> Lockstep(wires, from, first) && InStep(wires, from, pos, ring[index], m, bytesPerItem)
      modifies `ring, `pos, `packetCount, `hist
      ensures Busy()
      ensures pos == old(pos)[c := Advance(wires[c], old(pos[c]))]
      ensures ring[Ahead(index, 1)] == old(ring[Ahead(index, 1)]) && ring[Ahead(index, 3)] == old(ring[Ahead(index, 3)])
      ensures report.None? <==> Clean(wires[c], old(pos[c]))
      ensures report.Some? ==> Reports(report.value, wires[c], old(pos[c]), ring[Ahead(index, 3)], c, bytesPerItem,
                                       sampRate)
      ensures lockstep ==>
                report.None? && m < n && InStep(wires, from, pos, ring[index], m + 1, bytesPerItem)
    {
      hide Assembling, ChannelOk, Reports, Clean, Received, Lockstep, NextPacket;
      if lockstep {
        ghost var p := NextPacket(wires, pos, c);
        assert m < n && c == m by { FirstIsNext(wires, from, pos, ring[index], m, bytesPerItem); }
        StepOn(wires, from, pos, first, ring[index], m,
               p.hasTsf && ring[Ahead(index, 3)].buffers[c].time > p.time, bytesPerItem);
      }
      hide InStep;
      report := Attempt(c);
    }

    /** One iteration of the alignment loop, `m` packets after the call began at
        positions `from`: a report ends the loop, be it that of the arrival or
        that the limit on packets is reached. */
    method Iterate(c: nat, m: nat, ghost lockstep: bool, ghost from: seq<nat>, ghost first: Slot)
      returns (report: Option<Metadata>)
      requires Busy() && c == FirstTodo(ring[index].todo) < n
      requires Passed(wires, from, pos, m) && m <= threshold + 1
      requires lockstep ==>
                 && n <= threshold + 1 && Lockstep(wires, from, first)
                 && InStep(wires, from, pos, ring[index], m, bytesPerItem)
      modifies `ring, `pos, `packetCount, `hist
      ensures Busy()
      ensures ring[Ahead(index, 1)] == old(ring[Ahead(index, 1)]) && ring[Ahead(index, 3)] == old(ring[Ahead(index, 3)])
      ensures report.None? ==> m <= threshold && Passed(wires, from, pos, m + 1)
      ensures report.Some? ==>
                Stopped(wires, from, pos, threshold, c, old(pos[c]), report.value, ring[Ahead(index, 3)],
                        bytesPerItem, sampRate)
      ensures lockstep ==> report.None? && InStep(wires, from, pos, ring[index], m + 1, bytesPerItem)
    {
      hide Assembling, ChannelOk, Reports, Clean, Passed, Stopped, InStep, Lockstep;
      report := AttemptFirst(c, lockstep, from, first, m);
      PassOrStop(wires, from, old(pos), m, threshold, c, report, ring[Ahead(index, 3)], bytesPerItem, sampRate);
      if report.None? && m > threshold {
        report := Some(NO_METADATA.(errorCode := ERROR_ALIGNMENT));
      }
    }

    /** The alignment loop: ends with every channel ticked off after `k`
        packets, or with the report of arrival `k` of channel `c`. */
    method Align() returns (report: Option<Metadata>, ghost c: nat, ghost k: nat)
      requires Busy()
      modifies `ring, `pos, `packetCount, `hist
      ensures Busy()
      ensures ring[Ahead(index, 1)] == old(ring[Ahead(index, 1)]) && ring[Ahead(index, 3)] == old(ring[Ahead(index, 3)])
      ensures report.None? ==> k <= threshold + 1 && Passed(wires, old(pos), pos, k)
      ensures report.None? ==> AllTicked(ring[index]) && (k == 0 ==> ring == old(ring))
      ensures report.Some? ==>
                Stopped(wires, old(pos), pos, threshold, c, k, report.value, ring[Ahead(index, 3)], bytesPerItem,
                        sampRate)
      // channels in lockstep are aligned with one packet each
      ensures old(Lockstep(wires, pos, ring[index])) && n <= threshold + 1 ==>
                report.None? && k == n && InStep(wires, old(pos), pos, ring[index], n, bytesPerItem)
    {
      hide Assembling, ChannelOk, Passed, Stopped, InStep, Lockstep;
      var iterations := 0;
      report, c, k := None, n, 0;
      PositionsBounded();
      NothingPassed(wires, pos);
      ghost var lockstep := Lockstep(wires, pos, ring[index]) && n <= threshold + 1;
      NotYetInStep(wires, pos, ring[index], bytesPerItem);
      while FirstTodo(ring[index].todo) < n
        invariant Busy()
        invariant ring[Ahead(index, 1)] == old(ring[Ahead(index, 1)])
        invariant ring[Ahead(index, 3)] == old(ring[Ahead(index, 3)])
        invariant report.None? && k == iterations <= threshold + 1
        invariant Passed(wires, old(pos), pos, iterations) && (iterations == 0 ==> ring == old(ring))
        invariant lockstep ==> InStep(wires, old(pos), pos, ring[index], iterations, bytesPerItem)
        decreases threshold + 2 - iterations
      {
        c := FirstTodo(ring[index].todo);
        k := pos[c];
        report := Iterate(FirstTodo(ring[index].todo), iterations, lockstep, old(pos), old(ring[index]));
        if report.Some? {
          return;
        }
        iterations := iterations + 1;
        k := iterations;
      }
      if lockstep {
        AllInStep(wires, old(pos), pos, ring[index], iterations, bytesPerItem);
      }
    }

    /** Assembles the next aligned set from `k` more packets, or leaves the
        report of arrival `k` of channel `c`. */
    method GetAlignedBuffs() returns (ghost c: nat, ghost k: nat)
      requires Valid() && ring[index].dataBytes == 0
      modifies `ring, `index, `pos, `packetCount, `hist, `sets
      ensures Valid()
      // either one more set was completed and is ready to be handed out ...
      ensures sets != old(sets) ==>
                && |sets| == |old(sets)| + 1 && sets[..|old(sets)|] == old(sets)
                && HandsOut(ring[index], sets[|sets| - 1], bytesPerItem) && ring[index].fragmentOffset == 0
                && k <= threshold + 1 && Passed(wires, old(pos), pos, k)
      // ... or the current slot is empty but for the report of an arrival
      ensures sets == old(sets) ==>
                && ring[index].IsReportOnly()
                && Stopped(wires, old(pos), pos, threshold, c, k, ring[index].md, old(ring[index]), bytesPerItem,
                           sampRate)
      // channels in lockstep are aligned, with one packet each
      ensures old(Lockstep(wires, pos, ring[Ahead(index, 1)])) && n <= threshold + 1 ==>
                && sets != old(sets) && IsNextSet(sets[|sets| - 1], wires, old(pos))
                && forall i | 0 <= i < n :: pos[i] == old(pos[i]) + 1
      // a call that ends without an error code gets something done
      ensures ring[index].md.errorCode == ERROR_NONE ==>
                Backlog(wires, pos, ring[Ahead(index, 1)]) < old(Backlog(wires, pos, ring[Ahead(index, 1)]))
    {
      hide Assembling, AtRest, ChannelOk, Passed, Stopped, HandsOut, Lockstep, InStep, IsNextSet, CompletedSet;
      NextSlot();
      var report;
      report, c, k := Align();
      if report.Some? {
        SaveProgress(report.value);
        StopAdvances(wires, old(pos), pos, threshold, c, k, report.value, ring[Ahead(index, 3)], bytesPerItem,
                     sampRate);
      } else {
        PassAdvances(wires, old(pos), pos, k);
        if old(Lockstep(wires, pos, ring[Ahead(index, 1)])) && n <= threshold + 1 {
          LockstepSet(wires, old(pos), pos, ring[index], hist, bytesPerItem);
        }
        Complete();
      }
    }

    /** Copies `count` items of channel `c` into its output buffer, advances the
        read position and releases the buffer once it is fully consumed. */
    method ConvertChannel(c: nat, buffs: array2<Item>, offset: nat, count: nat)
      requires RingSized(ring, index, n) && c < n && 0 < bytesPerItem
      requires buffs.Length0 == n && offset + count <= buffs.Length1
      requires count * bytesPerItem <= ring[index].dataBytes
      modifies `ring, buffs
      ensures ring == old(ring)[index := old(ring[index]).(
                buffers := old(ring[index].buffers)[c := Consumed(old(ring[index]), c, count * bytesPerItem)])]
      ensures Row(buffs, c, offset, offset + count)
           == ReadItems(old(ring[index].buffers[c]).packet.payload,
                        old(ring[index].buffers[c]).copyPos / bytesPerItem, count)
      ensures forall i, j | 0 <= i < n && 0 <= j < buffs.Length1 && !(i == c && offset <= j < offset + count) ::
                buffs[i, j] == old(buffs[i, j])
    {
      var info := ring[index].buffers[c];
      var items := ReadItems(info.packet.payload, info.copyPos / bytesPerItem, count);
      for j := 0 to count
        modifies buffs
        invariant forall x | 0 <= x < j :: buffs[c, offset + x] == items[x]
        invariant forall x, y | 0 <= x < n && 0 <= y < buffs.Length1 && !(x == c && offset <= y < offset + j) ::
                    buffs[x, y] == old(buffs[x, y])
      {
        buffs[c, offset + j] := items[j];
      }
      info := info.(copyPos := info.copyPos + count * bytesPerItem);
      if ring[index].dataBytes == count * bytesPerItem {
        info := info.(held := false);
      }
      ring := ring[index := ring[index].(buffers := ring[index].buffers[c := info])];
    }

    /** Runs the conversion of every channel. */
    method ConvertAll(buffs: array2<Item>, offset: nat, count: nat)
      requires RingSized(ring, index, n) && 0 < bytesPerItem
      requires buffs.Length0 == n && offset + count <= buffs.Length1
      requires count * bytesPerItem <= ring[index].dataBytes
      modifies `ring, buffs
      ensures ring == old(ring)[index := PartConsumed(old(ring[index]), n, count * bytesPerItem)]
      ensures forall i | 0 <= i < n :: Row(buffs, i, offset, offset + count)
                == ReadItems(old(ring[index].buffers[i]).packet.payload,
                             old(ring[index].buffers[i]).copyPos / bytesPerItem, count)
      ensures Untouched(buffs, offset, count)
    {
      var cur := ring[index];
      assert cur.buffers == PartConsumed(cur, 0, count * bytesPerItem).buffers;
      for i := 0 to n
        invariant ring == old(ring)[index := PartConsumed(cur, i, count * bytesPerItem)]
        invariant forall j | 0 <= j < i :: Row(buffs, j, offset, offset + count)
                    == ReadItems(cur.buffers[j].packet.payload, cur.buffers[j].copyPos / bytesPerItem, count)
        invariant Untouched(buffs, offset, count)
      {
        ghost var rows := seq(i, j requires 0 <= j < i reads buffs => Row(buffs, j, offset, offset + count));
        label before:
        ConvertChannel(i, buffs, offset, count);
        forall j | 0 <= j < i ensures Row(buffs, j, offset, offset + count) == rows[j] {
          assert forall y | offset <= y < offset + count :: buffs[j, y] == old@before(buffs[j, y]);
        }
        assert PartConsumed(cur, i, count * bytesPerItem).buffers[i := Consumed(cur, i, count * bytesPerItem)]
            == PartConsumed(cur, i + 1, count * bytesPerItem).buffers;
      }
    }

    twostate predicate Untouched(buffs: array2<Item>, offset: nat, count: nat)
      reads buffs
    {
      forall i, j | 0 <= i < buffs.Length0 && 0 <= j < buffs.Length1 && !(offset <= j < offset + count) ::
        buffs[i, j] == old(buffs[i, j])
    }

    /** Copies up to `nsamps` items per channel from the current slot. */
    method CopyOut(buffs: array2<Item>, nsamps: nat, offset: nat) returns (count: nat, md: Metadata)
      requires Valid() && buffs.Length0 == n && offset + nsamps <= buffs.Length1
      modifies `ring, `delivered, buffs
      ensures count == Takes(old(ring[index]), nsamps, bytesPerItem)
      ensures ring == old(ring)[index := Copied(old(ring[index]), count, bytesPerItem)]
      ensures md == FragmentMetadata(old(ring[index]), ring[index].dataBytes != 0, sampRate)
      ensures delivered == HandedOut(old(delivered), old(ring[index]), count)
      ensures forall i | 0 <= i < n :: delivered[i] == old(delivered[i]) + Row(buffs, i, offset, offset + count)
      ensures Untouched(buffs, offset, count)
      ensures Valid()
    {
      hide AtRest, ChannelOk;
      var info := ring[index];
      md := info.md.(timeSpec := info.md.timeSpec + info.fragmentOffset as real / sampRate);
      count := Takes(info, nsamps, bytesPerItem);
      CopyRestsRing(ring, index, sets, hist, delivered, count, bytesPerItem);
      ConvertAll(buffs, offset, count);
      ConsumedIsCopied(info, count, bytesPerItem);
      info := ring[index].(dataBytes := ring[index].dataBytes - count * bytesPerItem);
      md := md.(moreFragments := info.dataBytes != 0, fragmentOffset := info.fragmentOffset);
      info := info.(fragmentOffset := info.fragmentOffset + count);
      ring := ring[index := info];
      delivered := HandedOut(delivered, old(ring[index]), count);
    }

    /** Report `md` is what the attempt `why` stopped on. */
    ghost predicate StoppedOn(why: Halt, md: Metadata)
      reads `pos
    {
      Stopped(wires, why.from, pos, threshold, why.c, why.k, md, why.prev, bytesPerItem, sampRate)
    }

    /** Receives samples of one packet, or of what is left of one. */
    method RecvOnePacket(buffs: array2<Item>, nsamps: nat, offset: nat)
      returns (count: nat, md: Metadata, ghost why: Halt)
      requires Valid() && buffs.Length0 == n && offset + nsamps <= buffs.Length1
      modifies `ring, `index, `pos, `packetCount, `hist, `sets, `delivered, buffs
      // what reached the caller is the next stretch of the stream
      ensures count <= nsamps && |delivered| == |old(delivered)| == n
      ensures forall i | 0 <= i < n :: delivered[i] == old(delivered[i]) + Row(buffs, i, offset, offset + count)
      ensures Untouched(buffs, offset, count)
      // it is a stretch of the set under way, or of a new one, and the metadata say which ...
      ensures old(ring[index].dataBytes) != 0 ==>
                pos == old(pos) && sets == old(sets) && md.fragmentOffset == old(ring[index].fragmentOffset)
      ensures old(ring[index].dataBytes) != 0 || sets != old(sets) ==> Fragment(sets, nsamps, count, md, sampRate)
      ensures old(sets) <= sets && |sets| <= |old(sets)| + 1
      // ... or there is none, and the metadata are the report of the arrival that the call stopped on
      ensures old(ring[index].dataBytes) == 0 && sets == old(sets) ==>
                && count == 0 && why.from == old(pos) && why.prev == old(ring[index])
                && CurrentOk(why.prev, sets, bytesPerItem) && StoppedOn(why, md)
      ensures md.errorCode != ERROR_NONE ==> old(ring[index].dataBytes) == 0 && sets == old(sets)
      ensures md.errorCode == ERROR_NONE ==> Quiet(wires, old(pos), pos)
      // a call that brings nothing and reports nothing still shrinks the backlog
      ensures Valid()
      ensures md.errorCode == ERROR_NONE && count == 0 && nsamps > 0 ==>
                Backlog(wires, pos, ring[Ahead(index, 1)]) < old(Backlog(wires, pos, ring[Ahead(index, 1)]))
    {
      hide AtRest, ChannelOk, Backlog, Passed, Stopped, HandsOut, Takes, CurrentOk, Quiet, Fragment, Copied;
      hide FragmentMetadata, HandedOut, Lockstep, IsNextSet;
      PositionsBounded();
      StillQuiet(wires, pos);
      CurrentIsOk(ring, index, sets, hist, delivered, bytesPerItem);
      ghost var c, k := 0, 0;
      if ring[index].dataBytes == 0 {
        c, k := GetAlignedBuffs();
        QuietUnlessStopped(old(pos), old(ring[index]), sets != old(sets), c, k);
      }
      why := Halt(old(pos), c, k, old(ring[index]));
      TakenFragment(ring, index, sets, hist, delivered, nsamps, bytesPerItem, sampRate);
      ghost var cur := ring[index];
      count, md := CopyOut(buffs, nsamps, offset);
      if old(ring[index].dataBytes) == 0 && sets == old(sets) {
        ReportHandedOut(cur, wires, old(pos), pos, threshold, c, k, old(ring[index]), bytesPerItem, sampRate, count);
      }
    }

    lemma QuietUnlessStopped(from: seq<nat>, prev: Slot, aligned: bool, c: nat, k: nat)
      requires index < |ring|
      requires aligned ==> Passed(wires, from, pos, k)
      requires !aligned ==>
                 Stopped(wires, from, pos, threshold, c, k, ring[index].md, prev, bytesPerItem, sampRate)
      ensures aligned || ring[index].md.errorCode == ERROR_NONE ==> Quiet(wires, from, pos)
    {
      hide Passed, Stopped, Quiet;
      if aligned {
        PassedIsQuiet(wires, from, pos, k);
      } else if ring[index].md.errorCode == ERROR_NONE {
        SilentIsQuiet(wires, from, pos, threshold, c, k, ring[index].md, prev, bytesPerItem, sampRate);
      }
    }

    /** Receives behind `total` items that are already in the buffers. */
    method RecvBehind(buffs: array2<Item>, nsamps: nat, total: nat)
      returns (num: nat, md: Metadata, ghost why: Halt)
      requires Valid() && buffs.Length0 == n && total + nsamps <= buffs.Length1
      modifies `ring, `index, `pos, `packetCount, `hist, `sets, `delivered, buffs
      ensures Valid() && num <= nsamps && old(sets) <= sets
      ensures forall i, s: seq<Item> | 0 <= i < n && old(delivered[i]) == s + old(Row(buffs, i, 0, total)) ::
                delivered[i] == s + Row(buffs, i, 0, total + num)
      ensures Untouched(buffs, total, num)
      ensures md.errorCode == ERROR_NONE ==> Quiet(wires, old(pos), pos)
      ensures md.errorCode != ERROR_NONE ==>
                && num == 0 && why.from == old(pos) && CurrentOk(why.prev, sets, bytesPerItem) && StoppedOn(why, md)
      ensures md.errorCode == ERROR_NONE && num == 0 && nsamps > 0 ==>
                Backlog(wires, pos, ring[Ahead(index, 1)]) < old(Backlog(wires, pos, ring[Ahead(index, 1)]))
    {
      hide AtRest, ChannelOk, Backlog, CurrentOk, Quiet, StoppedOn;
      num, md, why := RecvOnePacket(buffs, nsamps, total);
      forall i, s: seq<Item> | 0 <= i < n && old(delivered[i]) == s + old(Row(buffs, i, 0, total))
        ensures delivered[i] == s + Row(buffs, i, 0, total + num)
      {
        assert forall y | 0 <= y < total :: buffs[i, y] == old(buffs[i, y]);
        assert Row(buffs, i, 0, total + num) == old(Row(buffs, i, 0, total)) + Row(buffs, i, total, total + num);
      }
    }

    /** Keeps receiving until the buffers are full or an error is met, which is
        queued for the next call. */
    method FillRest(buffs: array2<Item>, nsamps: nat, already: nat) returns (total: nat, ghost why: Halt)
      requires Valid() && !queueError && buffs.Length0 == n && already <= nsamps <= buffs.Length1
      modifies this, buffs
      ensures Valid() && QueueOk() && already <= total <= nsamps && old(sets) <= sets
      ensures forall i, s: seq<Item> | 0 <= i < n && old(delivered[i]) == s + old(Row(buffs, i, 0, already)) ::
                delivered[i] == s + Row(buffs, i, 0, total)
      ensures Untouched(buffs, already, total - already)
      // full and no error on the way, or what is queued is the report of the first error met
      ensures !queueError ==> total == nsamps && Quiet(wires, old(pos), pos)
      ensures queueError ==>
                && Quiet(wires, old(pos), why.from)
                && CurrentOk(why.prev, sets, bytesPerItem) && StoppedOn(why, queueMd)
    {
      hide AtRest, ChannelOk, Backlog, CurrentOk, Quiet, StoppedOn;
      PositionsBounded();
      StillQuiet(wires, pos);
      total := already;
      why := Halt(pos, 0, 0, ring[index]);
      while total < nsamps
        invariant Valid() && !queueError && already <= total <= nsamps && old(sets) <= sets
        invariant forall i, s: seq<Item> | 0 <= i < n && old(delivered[i]) == s + old(Row(buffs, i, 0, already)) ::
                    delivered[i] == s + Row(buffs, i, 0, total)
        invariant Untouched(buffs, already, total - already)
        invariant Quiet(wires, old(pos), pos)
        decreases nsamps - total, Backlog(wires, pos, ring[Ahead(index, 1)])
      {
        PositionsBounded();
        BacklogNonNegative(wires, pos, ring[Ahead(index, 1)]);
        var num;
        ghost var before := pos;
        num, queueMd, why := RecvBehind(buffs, nsamps - total, total);
        if queueMd.errorCode != ERROR_NONE {
          queueError := true;
          break;
        }
        QuietOn(wires, old(pos), before, pos);
        total := total + num;
      }
    }

    /** Fills the caller's buffers from as many packets as it takes. An error
        met after samples were received waits for the next call. The metadata are
        about the first packet: `head` holds its number of items, the number of
        sets by then, and the positions of the wires. */
    method Recv(buffs: array2<Item>, nsamps: nat, onePacket: bool)
      returns (total: nat, md: Metadata, ghost why: Halt, ghost head: Head)
      requires Valid() && QueueOk() && buffs.Length0 == n && nsamps <= buffs.Length1
      modifies this, buffs
      ensures Valid() && QueueOk() && old(sets) <= sets
      ensures total <= nsamps && (md.errorCode != ERROR_NONE ==> total == 0)
      ensures forall i | 0 <= i < n :: delivered[i] == old(delivered[i]) + Row(buffs, i, 0, total)
      ensures Untouched(buffs, 0, total)
      // an error from the previous call is handed over, once, and nothing else happens
      ensures old(queueError) && old(queueMd.errorCode) != ERROR_TIMEOUT ==>
                && !queueError && md == old(queueMd) && total == 0
                && ring == old(ring) && pos == old(pos) && sets == old(sets)
      // otherwise an error is the report of the arrival the call stopped on ...
      ensures !(old(queueError) && old(queueMd.errorCode) != ERROR_TIMEOUT) && md.errorCode != ERROR_NONE ==>
                !queueError && why.from == old(pos) && why.prev == old(ring[index]) && StoppedOn(why, md)
      // ... or the buffers are filled, or what waits for the next call is the report of the first error met
      ensures md.errorCode == ERROR_NONE && !queueError ==>
                (onePacket || total == nsamps) && Quiet(wires, old(pos), pos)
      ensures queueError ==>
                && Quiet(wires, old(pos), why.from)
                && CurrentOk(why.prev, sets, bytesPerItem) && StoppedOn(why, queueMd)
      // the metadata describe the first stretch of samples, or are the report of the first arrival
      ensures !(old(queueError) && old(queueMd.errorCode) != ERROR_TIMEOUT) ==>
                && head.first <= total && |old(sets)| <= head.known <= |sets| && head.known <= |old(sets)| + 1
                && (onePacket ==> head.first == total)
                && if old(ring[index].dataBytes) == 0 && head.known == |old(sets)| then
                     && head.first == 0
                     && Stopped(wires, old(pos), head.to, threshold, head.c, head.k, md, old(ring[index]),
                                bytesPerItem, sampRate)
                   else
                     Fragment(sets[..head.known], nsamps, head.first, md, sampRate)
    {
      hide AtRest, ChannelOk, Backlog, Fragment, CurrentOk, Quiet, Stopped;
      if queueError {
        queueError := false;
        md := queueMd;
        if queueMd.errorCode != ERROR_TIMEOUT {
          return 0, md, Halt(pos, 0, 0, ring[index]), Head(0, 0, pos, 0, 0);
        }
      }
      total, md, why := RecvOnePacket(buffs, nsamps, 0);
      head := Head(total, |sets|, pos, why.c, why.k);
      assert sets[..head.known] == sets;
      if onePacket || md.errorCode != ERROR_NONE {
        return;
      }
      ghost var mid, before := pos, sets;
      total, why := FillRest(buffs, nsamps, total);
      assert sets[..head.known] == before;
      if queueError {
        QuietOn(wires, old(pos), mid, why.from);
      } else {
        QuietOn(wires, old(pos), mid, pos);
      }
    }

    /** Reads channel `c` until it times out and discards what was received. */
    method DrainChannel(c: nat)
      requires FeedOk() && c < n
      modifies `pos, `packetCount, `hist
      ensures FeedOk()
      ensures forall i | 0 <= i < n && i != c :: pos[i] == old(pos[i])
      ensures Drained(wires[c], old(pos[c]), pos[c])
    {
      hide ChannelOk, ExpectedCount, Stored;
      PositionsBounded();
      var prev, curr := BufferInfo(false, NO_PACKET, 0.0, 0), BufferInfo(false, NO_PACKET, 0.0, 0);
      while true
        invariant FeedOk() && forall i | 0 <= i < n && i != c :: pos[i] == old(pos[i])
        invariant old(pos[c]) <= pos[c] <= |wires[c]|
        invariant forall j | old(pos[c]) <= j < pos[c] :: !wires[c][j].Timeout?
        decreases |wires[c]| - pos[c]
      {
        var kind;
        kind, curr := GetSinglePacket(c, prev.time, curr);
        if kind == TimeoutError {
          return;
        }
        prev, curr := curr, curr.Reset();
      }
    }

    /** Drains every channel and empties the ring: resetting three slots leaves
        all four empty. */
    method FlushAll()
      requires Valid()
      modifies `ring, `pos, `packetCount, `start, `hist, `sets, `delivered
      ensures Valid()
      ensures forall k | 0 <= k < 4 :: ring[k].IsReset()
      ensures sets == [] && forall i | 0 <= i < n :: delivered[i] == [] && hist[i] == []
      ensures forall i | 0 <= i < n :: Drained(wires[i], old(pos[i]), pos[i])
    {
      hide AtRest, Drained;
      ThreeResets(ring, index, sets, hist, delivered, bytesPerItem);
      for c := 0 to n
        modifies `pos, `packetCount, `hist
        invariant FeedOk()
        invariant forall i | 0 <= i < c :: Drained(wires[i], old(pos[i]), pos[i])
        invariant forall i | c <= i < n :: pos[i] == old(pos[i])
      {
        DrainChannel(c);
      }
      start := pos;
      hist := seq(n, _ => []);
      sets := [];
      delivered := seq(n, _ => []);
      ring := ring[Ahead(index, 3) := ring[Ahead(index, 3)].Reset()]
                  [index := ring[index].Reset()]
                  [Ahead(index, 1) := ring[Ahead(index, 1)].Reset()];
    }
  }
}