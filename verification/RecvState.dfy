/** The invariant of the receive handler's ring of slots, stated on values, and
    the lemmas that carry it across one received packet, one saved report and
    one completed set. */
module RecvState {
  import opened RecvTypes
  import opened RecvAlign
  import Arith

  /** Aligned set `a` is made of data packets its channels really yielded, all
      stamped with its time, and one of them gave the item count. */
  ghost predicate SetOk(a: AlignedSet, hist: seq<seq<Packet>>) {
    && |a.packets| == |a.ends| == |hist|
    && (forall i | 0 <= i < |hist| :: MemberOk(a, hist, i))
    && (exists i | 0 <= i < |hist| :: a.items == |a.packets[i].payload|)
  }

  ghost predicate MemberOk(a: AlignedSet, hist: seq<seq<Packet>>, i: nat)
    requires |a.packets| == |a.ends| == |hist| && i < |hist|
  {
    && 1 <= a.ends[i] <= |hist[i]|
    && a.packets[i] == hist[i][a.ends[i] - 1]
    && a.packets[i].time == a.time
  }

  /** Every channel's member of `b` was received after its member of `a`. */
  ghost predicate After(a: AlignedSet, b: AlignedSet) {
    |a.ends| == |b.ends| && forall i | 0 <= i < |a.ends| :: a.ends[i] < b.ends[i]
  }

  ghost predicate SetsOk(sets: seq<AlignedSet>, hist: seq<seq<Packet>>) {
    && (forall k | 0 <= k < |sets| :: SetOk(sets[k], hist))
    && (forall k | 0 < k < |sets| :: After(sets[k - 1], sets[k]))
  }

  /** How many data packets of each channel the completed sets account for. */
  ghost function Base(sets: seq<AlignedSet>, n: nat): (b: seq<nat>)
    requires sets != [] ==> |sets[|sets| - 1].ends| == n
    ensures |b| == n
  {
    if sets == [] then seq(n, _ => 0) else sets[|sets| - 1].ends
  }

  ghost predicate AllIncreasing(hist: seq<seq<Packet>>) {
    forall i | 0 <= i < |hist| :: Increasing(hist[i])
  }

  /** Items of the last completed set that the current slot still holds. */
  ghost function Left(cur: Slot, sets: seq<AlignedSet>): nat {
    if cur.dataBytes == 0 || sets == [] || sets[|sets| - 1].items < cur.fragmentOffset then 0
    else sets[|sets| - 1].items - cur.fragmentOffset
  }

  /** The metadata of a completed set comes from channel zero. */
  function SetMetadata(first: BufferInfo): Metadata {
    Metadata(first.packet.hasTsf, first.time, false, 0, first.packet.sob, first.packet.eob, ERROR_NONE, false)
  }

  /** The slot hands out set `a`: `fragmentOffset` items are gone and
      `dataBytes` bytes remain, on every channel alike. */
  ghost predicate HandsOut(cur: Slot, a: AlignedSet, bytesPerItem: nat) {
    && 0 < |cur.buffers| == |a.packets|
    && cur.fragmentOffset <= a.items
    && cur.dataBytes == (a.items - cur.fragmentOffset) * bytesPerItem
    && cur.md == SetMetadata(cur.buffers[0])
    && forall i | 0 <= i < |cur.buffers| :: ChannelHandsOut(cur, a, bytesPerItem, i)
  }

  ghost predicate ChannelHandsOut(cur: Slot, a: AlignedSet, bytesPerItem: nat, i: nat)
    requires i < |cur.buffers| == |a.packets|
  {
    && cur.buffers[i].packet == a.packets[i]
    && cur.buffers[i].time == a.time
    && cur.buffers[i].copyPos == cur.fragmentOffset * bytesPerItem
    && (cur.dataBytes != 0 ==> cur.buffers[i].held)
  }

  ghost predicate CurrentOk(cur: Slot, sets: seq<AlignedSet>, bytesPerItem: nat) {
    cur.IsReportOnly() || (sets != [] && HandsOut(cur, sets[|sets| - 1], bytesPerItem))
  }

  /** Conservation: what was handed out followed by what the current slot still
      holds is the whole stream of aligned sets. */
  ghost predicate Conserved(cur: Slot, sets: seq<AlignedSet>, delivered: seq<seq<Item>>)
    requires forall k | 0 <= k < |sets| :: |sets[k].packets| == |delivered|
    requires |cur.buffers| == |delivered|
  {
    forall i | 0 <= i < |delivered| ::
      delivered[i] + ReadItems(cur.buffers[i].packet.payload, cur.fragmentOffset, Left(cur, sets)) == Stream(sets, i)
  }

  /** The ring between two calls: the current slot, the one after it with the
      alignment progress, and the one after that, empty. */
  ghost predicate SlotsOk(cur: Slot, next: Slot, spare: Slot, sets: seq<AlignedSet>,
                          hist: seq<seq<Packet>>, delivered: seq<seq<Item>>, bytesPerItem: nat)
  {
    && 0 < |hist| == |delivered| && 0 < bytesPerItem
    && cur.Sized(|hist|) && next.Sized(|hist|) && spare.Sized(|hist|)
    && SetsOk(sets, hist)
    && CurrentOk(cur, sets, bytesPerItem)
    && Conserved(cur, sets, delivered)
    && Progress(next, hist, Base(sets, |hist|), bytesPerItem)
    && spare.IsReset()
    && (AllIncreasing(hist) ==> Frontier(next, hist, sets))
  }

  lemma ResetIsReset(s: Slot)
    ensures s.Reset().IsReset()
    ensures |s.Reset().buffers| == |s.buffers| && |s.Reset().todo| == |s.todo|
  {
  }

  lemma TakenKeepsSets(sets: seq<AlignedSet>, hist: seq<seq<Packet>>, index: nat, p: Packet)
    requires index < |hist| && SetsOk(sets, hist)
    ensures SetsOk(sets, Taken(hist, index, p))
  {
    var h := Taken(hist, index, p);
    forall k | 0 <= k < |sets| ensures SetOk(sets[k], h) {
      forall i | 0 <= i < |hist| ensures MemberOk(sets[k], h, i) {
        assert MemberOk(sets[k], hist, i);
      }
    }
  }

  lemma PrefixIncreasing(h: seq<Packet>, p: Packet)
    requires Increasing(h + [p])
    ensures Increasing(h)
    ensures forall k | 0 <= k < |h| :: h[k].time < p.time
    ensures p.time >= 0.0
  {
    var g := h + [p];
    assert g[|h|] == p;
    assert forall k | 0 <= k < |h| :: g[k] == h[k];
  }

  lemma TakenIncreasing(hist: seq<seq<Packet>>, index: nat, p: Packet)
    requires index < |hist| && AllIncreasing(Taken(hist, index, p))
    ensures AllIncreasing(hist) && Increasing(hist[index] + [p])
  {
    var h := Taken(hist, index, p);
    forall i | 0 <= i < |hist| ensures Increasing(hist[i]) {
      assert Increasing(h[i]);
      if i == index { PrefixIncreasing(hist[i], p); }
    }
    assert h[index] == hist[index] + [p];
  }

  /** While channel times only move forward, a packet never comes before the
      previous slot's buffer: that slot holds either nothing or a packet
      already received. */
  lemma NoStepBack(
    prev: Slot, sets: seq<AlignedSet>, hist: seq<seq<Packet>>, index: nat, p: Packet, bytesPerItem: nat)
    requires prev.Sized(|hist|) && index < |hist| && SetsOk(sets, hist) && CurrentOk(prev, sets, bytesPerItem)
    requires AllIncreasing(Taken(hist, index, p))
    ensures prev.buffers[index].time <= p.time
  {
    TakenIncreasing(hist, index, p);
    PrefixIncreasing(hist[index], p);
    if prev.IsReportOnly() {
      assert prev.buffers[index].time == 0.0;
    } else {
      var a := sets[|sets| - 1];
      assert SetOk(a, hist) && MemberOk(a, hist, index);
      assert ChannelHandsOut(prev, a, bytesPerItem, index);
    }
  }

  lemma BaseBounded(sets: seq<AlignedSet>, hist: seq<seq<Packet>>, i: nat)
    requires i < |hist| && SetsOk(sets, hist)
    ensures Base(sets, |hist|)[i] <= |hist[i]|
  {
    if sets != [] {
      assert SetOk(sets[|sets| - 1], hist) && MemberOk(sets[|sets| - 1], hist, i);
    }
  }

  /** One data packet taken into the set under assembly keeps the whole ring
      invariant, whether it is newer, equal, older or steps back in time. */
  lemma ReceivedKeepsSlots(
    prev: Slot, curr: Slot, spare: Slot, sets: seq<AlignedSet>, hist: seq<seq<Packet>>,
    delivered: seq<seq<Item>>, index: nat, p: Packet, restart: bool, bytesPerItem: nat)
    requires SlotsOk(prev, curr, spare, sets, hist, delivered, bytesPerItem)
    requires index < |hist| && curr.todo[index]
    requires restart ==> prev.buffers[index].time > p.time
    ensures SlotsOk(prev, Received(curr, index, p, restart, bytesPerItem), spare, sets,
                    Taken(hist, index, p), delivered, bytesPerItem)
  {
    var h := Taken(hist, index, p);
    TakenKeepsSets(sets, hist, index, p);
    BaseBounded(sets, hist, index);
    ReceivedKeepsProgress(curr, hist, Base(sets, |hist|), index, p, restart, bytesPerItem);
    if AllIncreasing(h) {
      NoStepBack(prev, sets, hist, index, p, bytesPerItem);
      TakenIncreasing(hist, index, p);
      ReceivedKeepsFrontier(curr, hist, sets, index, p, bytesPerItem);
    }
  }

  /** Overwriting the record of a channel that is still awaited loses nothing. */
  lemma OverwriteKeepsSlots(
    prev: Slot, curr: Slot, spare: Slot, sets: seq<AlignedSet>, hist: seq<seq<Packet>>,
    delivered: seq<seq<Item>>, index: nat, b: BufferInfo, bytesPerItem: nat)
    requires SlotsOk(prev, curr, spare, sets, hist, delivered, bytesPerItem)
    requires index < |hist| && curr.todo[index]
    ensures SlotsOk(prev, curr.(buffers := curr.buffers[index := b]), spare, sets, hist, delivered, bytesPerItem)
  {
    var r := curr.(buffers := curr.buffers[index := b]);
    var base := Base(sets, |hist|);
    forall i | 0 <= i < |hist| && !r.todo[i] ensures TickedOff(r, hist, base, i) {
      assert TickedOff(curr, hist, base, i);
    }
    if curr.alignValid {
      var l :| 0 <= l < |hist| && LeadsSet(curr, l, bytesPerItem);
      assert LeadsSet(r, l, bytesPerItem);
    }
  }

  /** Swapping the progress into the next slot and leaving only a report. */
  lemma ReportKeepsSlots(
    prev: Slot, curr: Slot, empty: Slot, spare: Slot, md: Metadata, sets: seq<AlignedSet>,
    hist: seq<seq<Packet>>, delivered: seq<seq<Item>>, bytesPerItem: nat)
    requires SlotsOk(prev, curr, empty, sets, hist, delivered, bytesPerItem)
    requires prev.dataBytes == 0 && spare.Sized(|hist|) && spare.IsReset()
    ensures SlotsOk(empty.(md := md), curr, spare, sets, hist, delivered, bytesPerItem)
    ensures empty.(md := md).IsReportOnly()
  {
    var r := empty.(md := md);
    assert r.(md := NO_METADATA) == empty.(md := NO_METADATA) == empty;
    forall i | 0 <= i < |delivered|
      ensures delivered[i] + ReadItems(r.buffers[i].packet.payload, r.fragmentOffset, Left(r, sets)) == Stream(sets, i)
    {
      assert delivered[i] + ReadItems(prev.buffers[i].packet.payload, prev.fragmentOffset, Left(prev, sets))
          == Stream(sets, i);
      assert ReadItems(prev.buffers[i].packet.payload, prev.fragmentOffset, 0) == [];
    }
  }

  /** The aligned set a fully ticked-off slot stands for. */
  ghost function CompletedSet(curr: Slot, hist: seq<seq<Packet>>, bytesPerItem: nat): AlignedSet
    requires curr.Sized(|hist|) && 0 < bytesPerItem
  {
    AlignedSet(curr.alignTime, curr.dataBytes / bytesPerItem,
               seq(|hist|, i requires 0 <= i < |hist| => curr.buffers[i].packet),
               seq(|hist|, i requires 0 <= i < |hist| => |hist[i]|))
  }

  lemma CompletedSetOk(curr: Slot, sets: seq<AlignedSet>, hist: seq<seq<Packet>>, bytesPerItem: nat)
    requires 0 < |hist| && 0 < bytesPerItem && curr.Sized(|hist|) && SetsOk(sets, hist)
    requires Progress(curr, hist, Base(sets, |hist|), bytesPerItem)
    requires forall i | 0 <= i < |hist| :: !curr.todo[i]
    ensures curr.alignValid
    ensures SetsOk(sets + [CompletedSet(curr, hist, bytesPerItem)], hist)
    ensures HandsOut(curr.(md := SetMetadata(curr.buffers[0])), CompletedSet(curr, hist, bytesPerItem), bytesPerItem)
  {
    var a := CompletedSet(curr, hist, bytesPerItem);
    var base := Base(sets, |hist|);
    assert !curr.todo[0];
    assert curr.alignValid;
    var l :| 0 <= l < |hist| && LeadsSet(curr, l, bytesPerItem);
    Arith.MultipleDivides(|curr.buffers[l].packet.payload|, bytesPerItem);
    assert a.items == |a.packets[l].payload|;
    forall i | 0 <= i < |hist| ensures MemberOk(a, hist, i) && base[i] < a.ends[i] {
      assert TickedOff(curr, hist, base, i);
    }
    var after := sets + [a];
    forall k | 0 < k < |after| ensures After(after[k - 1], after[k]) {
      if k < |sets| {
        assert After(sets[k - 1], sets[k]);
      }
    }
    var cur := curr.(md := SetMetadata(curr.buffers[0]));
    forall i | 0 <= i < |hist| ensures ChannelHandsOut(cur, a, bytesPerItem, i) {
      assert TickedOff(curr, hist, base, i);
    }
  }

  lemma CompletionConserves(
    prev: Slot, cur: Slot, sets: seq<AlignedSet>, a: AlignedSet, delivered: seq<seq<Item>>, bytesPerItem: nat)
    requires 0 < bytesPerItem
    requires forall k | 0 <= k < |sets| :: |sets[k].packets| == |delivered|
    requires |prev.buffers| == |cur.buffers| == |a.packets| == |delivered|
    requires prev.dataBytes == 0 && Conserved(prev, sets, delivered)
    requires HandsOut(cur, a, bytesPerItem) && cur.fragmentOffset == 0
    ensures Conserved(cur, sets + [a], delivered)
  {
    var after := sets + [a];
    assert after[..|sets|] == sets && after[|sets|] == a;
    assert Left(cur, after) == a.items by {
      if a.items != 0 { assert a.items * bytesPerItem >= bytesPerItem; }
    }
    forall i | 0 <= i < |delivered|
      ensures delivered[i] + ReadItems(cur.buffers[i].packet.payload, 0, a.items) == Stream(after, i)
    {
      assert delivered[i] + ReadItems(prev.buffers[i].packet.payload, prev.fragmentOffset, 0) == Stream(sets, i);
      assert ReadItems(prev.buffers[i].packet.payload, prev.fragmentOffset, 0) == [];
      assert ChannelHandsOut(cur, a, bytesPerItem, i);
    }
  }

  lemma EmptyProgress(s: Slot, hist: seq<seq<Packet>>, base: seq<nat>, bytesPerItem: nat)
    requires s.Sized(|hist|) && |base| == |hist| && s.IsReset()
    ensures Progress(s, hist, base, bytesPerItem)
  {
  }

  /** A fully ticked-off slot becomes the current one and its set is recorded. */
  lemma CompletionKeepsSlots(
    prev: Slot, curr: Slot, empty: Slot, spare: Slot, sets: seq<AlignedSet>,
    hist: seq<seq<Packet>>, delivered: seq<seq<Item>>, bytesPerItem: nat)
    requires SlotsOk(prev, curr, empty, sets, hist, delivered, bytesPerItem)
    requires prev.dataBytes == 0 && spare.Sized(|hist|) && spare.IsReset()
    requires forall i | 0 <= i < |hist| :: !curr.todo[i]
    ensures SlotsOk(curr.(md := SetMetadata(curr.buffers[0])), empty, spare,
                    sets + [CompletedSet(curr, hist, bytesPerItem)], hist, delivered, bytesPerItem)
  {
    var a := CompletedSet(curr, hist, bytesPerItem);
    CompletedSetOk(curr, sets, hist, bytesPerItem);
    CompletionConserves(prev, curr.(md := SetMetadata(curr.buffers[0])), sets, a, delivered, bytesPerItem);
    EmptyProgress(empty, hist, Base(sets + [a], |hist|), bytesPerItem);
    if AllIncreasing(hist) {
      CompletionKeepsFrontier(curr, hist, Base(sets, |hist|), sets, a, empty, bytesPerItem);
    }
  }

  /** The slot after `n` more of its items were copied out on every channel. */
  function Copied(cur: Slot, n: nat, bytesPerItem: nat): (r: Slot)
    requires n * bytesPerItem <= cur.dataBytes
    ensures |r.buffers| == |cur.buffers| && r.todo == cur.todo
  {
    cur.(dataBytes := cur.dataBytes - n * bytesPerItem,
         fragmentOffset := cur.fragmentOffset + n,
         buffers := seq(|cur.buffers|, i requires 0 <= i < |cur.buffers| =>
           cur.buffers[i].(copyPos := cur.buffers[i].copyPos + n * bytesPerItem,
                           held := cur.buffers[i].held && cur.dataBytes != n * bytesPerItem)))
  }

  lemma CopiedHandsOut(cur: Slot, a: AlignedSet, n: nat, bytesPerItem: nat)
    requires 0 < bytesPerItem && HandsOut(cur, a, bytesPerItem) && cur.fragmentOffset + n <= a.items
    ensures n * bytesPerItem <= cur.dataBytes
    ensures HandsOut(Copied(cur, n, bytesPerItem), a, bytesPerItem)
  {
    var left := a.items - cur.fragmentOffset;
    Arith.MulMonotone(n, left, bytesPerItem);
    Arith.MulDistributes(left, n, bytesPerItem);
    Arith.MulDistributes(cur.fragmentOffset, n, bytesPerItem);
    var r := Copied(cur, n, bytesPerItem);
    assert r.buffers[0].packet == cur.buffers[0].packet;
    forall i | 0 <= i < |r.buffers| ensures ChannelHandsOut(r, a, bytesPerItem, i) {
      assert ChannelHandsOut(cur, a, bytesPerItem, i);
    }
  }

  /** What copying `n` items out adds to each channel's delivered stream. */
  ghost function HandedOut(delivered: seq<seq<Item>>, cur: Slot, n: nat): (r: seq<seq<Item>>)
    requires |cur.buffers| == |delivered|
    ensures |r| == |delivered|
  {
    seq(|delivered|, i requires 0 <= i < |delivered| =>
      delivered[i] + ReadItems(cur.buffers[i].packet.payload, cur.fragmentOffset, n))
  }

  lemma CopyConserves(cur: Slot, sets: seq<AlignedSet>, delivered: seq<seq<Item>>, n: nat, bytesPerItem: nat)
    requires 0 < bytesPerItem && sets != []
    requires forall k | 0 <= k < |sets| :: |sets[k].packets| == |delivered|
    requires |cur.buffers| == |delivered| && Conserved(cur, sets, delivered)
    requires HandsOut(cur, sets[|sets| - 1], bytesPerItem) && cur.fragmentOffset + n <= sets[|sets| - 1].items
    ensures n * bytesPerItem <= cur.dataBytes
    ensures Conserved(Copied(cur, n, bytesPerItem), sets, HandedOut(delivered, cur, n))
  {
    var a := sets[|sets| - 1];
    CopiedHandsOut(cur, a, n, bytesPerItem);
    var r := Copied(cur, n, bytesPerItem);
    LeftOf(cur, sets, bytesPerItem);
    LeftOf(r, sets, bytesPerItem);
    forall i | 0 <= i < |delivered|
      ensures HandedOut(delivered, cur, n)[i]
              + ReadItems(r.buffers[i].packet.payload, r.fragmentOffset, Left(r, sets)) == Stream(sets, i)
    {
      ReadItemsSplit(cur.buffers[i].packet.payload, cur.fragmentOffset, n, Left(r, sets));
      assert delivered[i] + ReadItems(cur.buffers[i].packet.payload, cur.fragmentOffset, Left(cur, sets))
          == Stream(sets, i);
    }
  }

  lemma LeftOf(cur: Slot, sets: seq<AlignedSet>, bytesPerItem: nat)
    requires 0 < bytesPerItem && sets != [] && HandsOut(cur, sets[|sets| - 1], bytesPerItem)
    ensures Left(cur, sets) == sets[|sets| - 1].items - cur.fragmentOffset == cur.dataBytes / bytesPerItem
  {
    var left := sets[|sets| - 1].items - cur.fragmentOffset;
    Arith.MultipleDivides(left, bytesPerItem);
    if left != 0 { Arith.MulMonotone(1, left, bytesPerItem); }
  }

  /** Where channel `i` reads next, and the buffer it reads from is still held. */
  lemma ReadPosition(cur: Slot, sets: seq<AlignedSet>, bytesPerItem: nat, i: nat)
    requires 0 < bytesPerItem && CurrentOk(cur, sets, bytesPerItem) && i < |cur.buffers|
    ensures cur.buffers[i].copyPos / bytesPerItem == cur.fragmentOffset
    ensures cur.dataBytes != 0 ==> cur.buffers[i].held
  {
    if cur.IsReportOnly() {
      assert cur.buffers[i] == cur.buffers[i].Reset();
    } else {
      assert ChannelHandsOut(cur, sets[|sets| - 1], bytesPerItem, i);
      Arith.MultipleDivides(cur.fragmentOffset, bytesPerItem);
    }
  }

  lemma CopyNothing(cur: Slot, delivered: seq<seq<Item>>, bytesPerItem: nat)
    requires cur.IsReportOnly() && |cur.buffers| == |delivered|
    ensures Copied(cur, 0, bytesPerItem) == cur && HandedOut(delivered, cur, 0) == delivered
  {
    var r := Copied(cur, 0, bytesPerItem);
    forall i | 0 <= i < |cur.buffers| ensures r.buffers[i] == cur.buffers[i] {
      assert cur.buffers[i] == cur.buffers[i].Reset();
    }
    assert r.buffers == cur.buffers;
    forall i | 0 <= i < |delivered| ensures HandedOut(delivered, cur, 0)[i] == delivered[i] {
      assert ReadItems(cur.buffers[i].packet.payload, cur.fragmentOffset, 0) == [];
    }
  }

  /** Taking no more items than the remaining bytes hold keeps the invariant. */
  lemma CopyKeepsSlots(
    cur: Slot, next: Slot, spare: Slot, sets: seq<AlignedSet>, hist: seq<seq<Packet>>,
    delivered: seq<seq<Item>>, n: nat, bytesPerItem: nat)
    requires SlotsOk(cur, next, spare, sets, hist, delivered, bytesPerItem)
    requires n <= cur.dataBytes / bytesPerItem
    ensures n * bytesPerItem <= cur.dataBytes
    ensures SlotsOk(Copied(cur, n, bytesPerItem), next, spare, sets, hist, HandedOut(delivered, cur, n), bytesPerItem)
  {
    if cur.IsReportOnly() {
      Arith.MultipleDivides(0, bytesPerItem);
      assert n == 0;
      CopyNothing(cur, delivered, bytesPerItem);
    } else {
      LeftOf(cur, sets, bytesPerItem);
      CopyConserves(cur, sets, delivered, n, bytesPerItem);
      CopiedHandsOut(cur, sets[|sets| - 1], n, bytesPerItem);
    }
  }
}
