/** What holds of the receive handler in every reachable state. */
module RecvTheorems {
  import opened RecvTypes
  import opened RecvAlign
  import opened RecvState
  import opened RecvHandler
  import Arith
  import RealArith

  /** The sets delivered are exactly the timestamps that every channel received,
      in increasing order, but for the one still under assembly. */
  lemma AlignmentIsIntersection(h: Handler, t: real)
    requires h.Valid() && AllIncreasing(h.hist)
    ensures SetsIncrease(h.sets)
    ensures Aligned(h.sets, t) ==> Common(h.hist, t)
    ensures Common(h.hist, t) ==>
              var next := h.ring[Ahead(h.index, 1)];
              Aligned(h.sets, t) || (next.alignValid && t == next.alignTime)
  {
    if Aligned(h.sets, t) {
      AlignedIsCommon(h.sets, h.hist, t);
    }
    if Common(h.hist, t) {
      CommonTimesAreAligned(h.ring[Ahead(h.index, 1)], h.hist, h.sets, t);
    }
  }

  lemma AlignedIsCommon(sets: seq<AlignedSet>, hist: seq<seq<Packet>>, t: real)
    requires SetsOk(sets, hist) && Aligned(sets, t)
    ensures Common(hist, t)
  {
    var k :| 0 <= k < |sets| && sets[k].time == t;
    assert SetOk(sets[k], hist);
    forall i | 0 <= i < |hist| ensures HasTime(hist[i], t) {
      assert MemberOk(sets[k], hist, i);
    }
  }

  /** In every reachable state all members of every delivered set are data
      packets that their channel's wire really carried since the last flush,
      with one timestamp, each later on its wire than the set before. */
  lemma SetsComeFromTheWires(h: Handler, k: nat, i: nat)
    requires h.Valid() && k < |h.sets| && i < h.n
    ensures |h.sets[k].packets| == |h.sets[k].ends| == h.n
    ensures h.sets[k].packets[i].time == h.sets[k].time
    ensures exists lead | 0 <= lead < h.n :: h.sets[k].items == |h.sets[k].packets[lead].payload|
    ensures var data := DataOf(h.wires[i][h.start[i]..h.pos[i]]);
            1 <= h.sets[k].ends[i] <= |data| && h.sets[k].packets[i] == data[h.sets[k].ends[i] - 1]
    ensures k > 0 ==> |h.sets[k - 1].ends| == h.n && h.sets[k - 1].ends[i] < h.sets[k].ends[i]
  {
    assert ChannelOk(h.wires[i], h.start[i], h.pos[i], h.hist[i], h.packetCount[i]);
    assert SetOk(h.sets[k], h.hist) && MemberOk(h.sets[k], h.hist, i);
    if k > 0 {
      assert SetOk(h.sets[k - 1], h.hist) && After(h.sets[k - 1], h.sets[k]);
    }
  }

  /** Conservation in every reachable state: the items handed out on a channel,
      followed by what the current slot still holds, are the aligned sets' items. */
  lemma DeliveredIsStream(h: Handler, i: nat)
    requires h.Valid() && i < h.n
    ensures forall k | 0 <= k < |h.sets| :: i < |h.sets[k].packets|
    ensures var cur := h.ring[h.index];
            var rest := ReadItems(cur.buffers[i].packet.payload, cur.fragmentOffset, Left(cur, h.sets));
            h.delivered[i] + rest == Stream(h.sets, i)
    ensures h.ring[h.index].dataBytes == 0 ==> h.delivered[i] == Stream(h.sets, i)
  {
    forall k | 0 <= k < |h.sets| ensures |h.sets[k].packets| == h.n {
      assert SetOk(h.sets[k], h.hist);
    }
    var cur := h.ring[h.index];
    assert Conserved(cur, h.sets, h.delivered);
    assert h.delivered[i] + ReadItems(cur.buffers[i].packet.payload, cur.fragmentOffset, Left(cur, h.sets))
        == Stream(h.sets, i);
    if cur.dataBytes == 0 {
      assert ReadItems(cur.buffers[i].packet.payload, cur.fragmentOffset, 0) == [];
    }
  }

  /** The payloads of one channel's packets, one after the other. */
  ghost function Payloads(sets: seq<AlignedSet>, i: nat): seq<Item>
    requires forall k | 0 <= k < |sets| :: i < |sets[k].packets|
  {
    if sets == [] then []
    else
      var p := sets[|sets| - 1].packets[i].payload;
      Payloads(sets[..|sets| - 1], i) + seq(|p|, k requires 0 <= k < |p| => Sample(p[k]))
  }

  /** The first `items` of each payload, or all of a shorter one. */
  ghost function Heads(sets: seq<AlignedSet>, i: nat): seq<Item>
    requires forall k | 0 <= k < |sets| :: i < |sets[k].packets|
  {
    if sets == [] then []
    else
      var last := sets[|sets| - 1];
      var p := last.packets[i].payload;
      Heads(sets[..|sets| - 1], i) + ReadItems(p, 0, if |p| < last.items then |p| else last.items)
  }

  ghost predicate SizesAgree(sets: seq<AlignedSet>, i: nat)
    requires forall k | 0 <= k < |sets| :: i < |sets[k].packets|
  {
    forall k | 0 <= k < |sets| :: |sets[k].packets[i].payload| == sets[k].items
  }

  ghost predicate SomeShorter(sets: seq<AlignedSet>, i: nat)
    requires forall k | 0 <= k < |sets| :: i < |sets[k].packets|
  {
    exists k | 0 <= k < |sets| :: |sets[k].packets[i].payload| < sets[k].items
  }

  ghost predicate SomeLonger(sets: seq<AlignedSet>, i: nat)
    requires forall k | 0 <= k < |sets| :: i < |sets[k].packets|
  {
    exists k | 0 <= k < |sets| :: |sets[k].packets[i].payload| > sets[k].items
  }

  /** A channel's stream holds what lies behind a payload exactly when some
      payload is shorter than that of the packet that led its set, and is the
      heads of its payloads, in order, exactly when none is. */
  lemma {:induction false} StreamReadsPast(sets: seq<AlignedSet>, i: nat)
    requires forall k | 0 <= k < |sets| :: i < |sets[k].packets|
    ensures Stray in Stream(sets, i) <==> SomeShorter(sets, i)
    ensures Stray !in Heads(sets, i) && Stray !in Payloads(sets, i)
    ensures !SomeShorter(sets, i) ==> Stream(sets, i) == Heads(sets, i)
  {
    if sets != [] {
      var init, last := sets[..|sets| - 1], sets[|sets| - 1];
      var p := last.packets[i].payload;
      StreamReadsPast(init, i);
      var tail := ReadItems(p, 0, last.items);
      assert Stream(sets, i) == Stream(init, i) + tail;
      assert |p| < last.items ==> tail[|p|] == Stray;
      assert SomeShorter(sets, i) <==> SomeShorter(init, i) || |p| < last.items by {
        assert forall k | 0 <= k < |init| :: init[k] == sets[k];
      }
    }
  }

  /** The heads are the whole payloads exactly when no payload is longer than the
      one that led its set; a longer one loses its tail. */
  lemma {:induction false} HeadsDropTails(sets: seq<AlignedSet>, i: nat)
    requires forall k | 0 <= k < |sets| :: i < |sets[k].packets|
    ensures SomeLonger(sets, i) ==> |Heads(sets, i)| < |Payloads(sets, i)|
    ensures !SomeLonger(sets, i) ==> Heads(sets, i) == Payloads(sets, i)
    ensures |Heads(sets, i)| <= |Payloads(sets, i)|
  {
    if sets != [] {
      var init, last := sets[..|sets| - 1], sets[|sets| - 1];
      var p := last.packets[i].payload;
      HeadsDropTails(init, i);
      assert ReadItems(p, 0, |p|) == seq(|p|, k requires 0 <= k < |p| => Sample(p[k]));
      assert SomeLonger(sets, i) <==> SomeLonger(init, i) || |p| > last.items by {
        assert forall k | 0 <= k < |init| :: init[k] == sets[k];
      }
    }
  }

  /** The stream of a channel is its packets' payloads, no more and no less,
      exactly when its payloads have the size of the packet that led the set. */
  lemma StreamIsPayloads(sets: seq<AlignedSet>, i: nat)
    requires forall k | 0 <= k < |sets| :: i < |sets[k].packets|
    ensures Stream(sets, i) == Payloads(sets, i) <==> SizesAgree(sets, i)
    ensures !SomeShorter(sets, i) && SomeLonger(sets, i) ==> |Stream(sets, i)| < |Payloads(sets, i)|
  {
    StreamReadsPast(sets, i);
    HeadsDropTails(sets, i);
    assert SizesAgree(sets, i) <==> !SomeShorter(sets, i) && !SomeLonger(sets, i) by {
      hide Stream, Payloads, Heads;
    }
  }

  /** Two channels whose packets agree in time but not in size: channel zero
      leads, and channel one hands out stray items if it is shorter and loses its
      tail if it is longer. */
  method UnequalPayloads(lead: seq<int>, other: seq<int>, time: real) returns (h: Handler)
    ensures fresh(h) && h.Valid() && h.n == 2 && |h.sets| == 1 && |h.sets[0].packets| == 2
    ensures h.sets[0].packets[0].payload == lead && h.sets[0].packets[1].payload == other
    ensures Stream(h.sets, 0) == Payloads(h.sets, 0)
    ensures Stray in Stream(h.sets, 1) <==> |other| < |lead|
    ensures |other| > |lead| ==> |Stream(h.sets, 1)| == |lead| < |Payloads(h.sets, 1)| == |other|
  {
    hide AtRest, ChannelOk, Stopped, Passed, HandsOut, Backlog;
    var a := Packet(true, 0, false, true, time, false, false, 0, lead);
    var b := a.(payload := other);
    h := new Handler([[Got(a)], [Got(b)]], 4, 1.0, 1);
    assert Lockstep(h.wires, h.pos, h.ring[Ahead(h.index, 1)]) by {
      assert Clean([Got(a)], 0) && Clean([Got(b)], 0);
    }
    ghost var c, k := h.GetAlignedBuffs();
    UnequalStreams(h.sets, lead, other);
  }

  lemma UnequalStreams(sets: seq<AlignedSet>, lead: seq<int>, other: seq<int>)
    requires |sets| == 1 && |sets[0].packets| == 2 && sets[0].items == |lead|
    requires sets[0].packets[0].payload == lead && sets[0].packets[1].payload == other
    ensures Stream(sets, 0) == Payloads(sets, 0)
    ensures Stray in Stream(sets, 1) <==> |other| < |lead|
    ensures |Stream(sets, 1)| == |lead| && |Payloads(sets, 1)| == |other|
  {
    StreamIsPayloads(sets, 0);
    StreamReadsPast(sets, 1);
    assert SomeShorter(sets, 1) <==> |sets[0].packets[1].payload| < sets[0].items;
    assert sets[..0] == [];
  }

  /** A report is silent, that is, without an error code, exactly when it comes
      from an inline message whose context code is zero. */
  lemma SilentReport(wires: seq<seq<Arrival>>, from: seq<nat>, to: seq<nat>, threshold: nat, c: nat, k: nat,
                     md: Metadata, prev: Slot, bytesPerItem: nat, sampRate: real)
    requires Stopped(wires, from, to, threshold, c, k, md, prev, bytesPerItem, sampRate)
    ensures md.errorCode == ERROR_NONE <==>
              var a := ArrivalAt(wires[c], k);
              a.Got? && !a.packet.isData && a.packet.code == 0
  {
    assert Reports(md, wires[c], k, prev, c, bytesPerItem, sampRate);
  }

  /** Such a message makes `GetAlignedBuffs` end without an error code although
      no set was aligned. */
  method SilentMessage(time: real) returns (h: Handler)
    ensures h.Valid() && h.sets == [] && h.ring[h.index].md.errorCode == ERROR_NONE
  {
    hide AtRest, ChannelOk, Stopped, Passed, HandsOut, Backlog;
    var message := Packet(false, 0, false, true, time, false, false, 0, []);
    h := new Handler([[Got(message)]], 4, 1.0, 0);
    ghost var from, prev := h.pos, h.ring[h.index];
    ghost var c, k := h.GetAlignedBuffs();
    NothingToAlign(h);
    StopsAtMessage(h.wires, from, h.pos, h.threshold, c, k, h.ring[h.index].md, prev, h.bytesPerItem, h.sampRate);
  }

  lemma NothingToAlign(h: Handler)
    requires h.Valid() && forall j | 0 <= j < |h.wires[0]| :: h.wires[0][j].Got? && !h.wires[0][j].packet.isData
    ensures h.sets == []
  {
    assert ChannelOk(h.wires[0], h.start[0], h.pos[0], h.hist[0], h.packetCount[0]);
    OnlyMessages(h.wires[0], h.start[0], h.pos[0]);
    if h.sets != [] {
      SetsComeFromTheWires(h, 0, 0);
    }
  }

  lemma StopsAtMessage(wires: seq<seq<Arrival>>, from: seq<nat>, to: seq<nat>, threshold: nat, c: nat, k: nat,
                       md: Metadata, prev: Slot, bytesPerItem: nat, sampRate: real)
    requires Stopped(wires, from, to, threshold, c, k, md, prev, bytesPerItem, sampRate)
    requires |wires| == 1 && |wires[0]| == 1 && wires[0][0].Got? && !wires[0][0].packet.isData && from[0] == 0
    ensures k == 0 && md.errorCode == wires[0][0].packet.code
  {
    assert CleanRun(wires[0], from[0], to[0], true, k);
    assert !Clean(wires[0], 0);
    assert Reports(md, wires[0], k, prev, c, bytesPerItem, sampRate);
  }

  lemma {:induction false} OnlyMessages(wire: seq<Arrival>, from: nat, end: nat)
    requires from <= end <= |wire| && forall j | 0 <= j < |wire| :: wire[j].Got? && !wire[j].packet.isData
    ensures DataOf(wire[from..end]) == []
    decreases end
  {
    if from < end {
      OnlyMessages(wire, from, end - 1);
      DataOfStep(wire, from, end - 1);
    }
  }

  // -------------------------------------------------------------------
  // Packet counts and gaps.
  // -------------------------------------------------------------------

  ghost predicate DataAt(wire: seq<Arrival>, j: nat) {
    j < |wire| && wire[j].Got? && wire[j].packet.isData
  }

  /** How many data packets a wire carries before a position. */
  ghost function DataBefore(wire: seq<Arrival>, j: nat): nat
    requires j <= |wire|
  {
    |DataOf(wire[0..j])|
  }

  lemma {:induction false} LastData(wire: seq<Arrival>, j: nat) returns (i: nat)
    requires j <= |wire| && DataBefore(wire, j) > 0
    ensures i < j && DataAt(wire, i) && DataBefore(wire, i) == DataBefore(wire, j) - 1
    ensures wire[i].packet == DataOf(wire[0..j])[DataBefore(wire, j) - 1]
  {
    DataOfStep(wire, 0, j - 1);
    if DataAt(wire, j - 1) {
      i := j - 1;
    } else {
      i := LastData(wire, j - 1);
    }
  }

  /** Whether a data packet passes the check of its count depends on the data
      packet before it and on its link layer. */
  lemma CleanIffNextCount(wire: seq<Arrival>, j: nat)
    requires DataAt(wire, j)
    ensures DataBefore(wire, j) == 0 ==> (Clean(wire, j) <==> wire[j].packet.count == 0)
    ensures DataBefore(wire, j) > 0 ==>
              var last := DataOf(wire[0..j])[DataBefore(wire, j) - 1];
              Clean(wire, j) <==> wire[j].packet.count == (last.count + 1) % (if last.chdrLink then 4096 else 16)
  {
  }

  lemma SuccessorWraps(k: nat, m: nat)
    requires 1 < m
    ensures (k % m + 1) % m == (k + 1) % m
  {
    var q, r := k / m, k % m;
    Arith.MulDistributes(q, 1, m);
    if r + 1 < m {
      Arith.RemainderUnique(r + 1, m, 0, r + 1);
      Arith.RemainderUnique(k + 1, m, q, r + 1);
    } else {
      Arith.RemainderUnique(m, m, 1, 0);
      Arith.RemainderUnique(k + 1, m, q + 1, 0);
    }
  }

  /** With everything before in sequence, a data packet is clean exactly when it
      carries its own number among the data packets, modulo 16, or modulo 4096
      under a link layer. */
  lemma CleanIffNumbered(wire: seq<Arrival>, link: bool, j: nat)
    requires DataAt(wire, j)
    requires forall i | 0 <= i < j && DataAt(wire, i) :: wire[i].packet.chdrLink == link
    requires forall i | 0 <= i < j && DataAt(wire, i) ::
      wire[i].packet.count == DataBefore(wire, i) % (if link then 4096 else 16)
    ensures Clean(wire, j) <==> wire[j].packet.count == DataBefore(wire, j) % (if link then 4096 else 16)
  {
    hide DataOf, Clean;
    CleanIffNextCount(wire, j);
    if DataBefore(wire, j) > 0 {
      var i := LastData(wire, j);
      SuccessorWraps(DataBefore(wire, i), if link then 4096 else 16);
    }
  }

  /** A wire all of whose data packets lack a link layer, or all have one, is
      clean throughout exactly when they are numbered from zero, modulo 16 or
      4096, whatever messages, timeouts and malformed packets lie between. */
  lemma {:induction false} CleanIffInSequence(wire: seq<Arrival>, link: bool, end: nat)
    requires end <= |wire|
    requires forall i | 0 <= i < end && DataAt(wire, i) :: wire[i].packet.chdrLink == link
    ensures (forall i | 0 <= i < end && DataAt(wire, i) :: Clean(wire, i)) <==>
            (forall i | 0 <= i < end && DataAt(wire, i) ::
              wire[i].packet.count == DataBefore(wire, i) % (if link then 4096 else 16))
  {
    hide DataBefore, Clean;
    if end > 0 {
      CleanIffInSequence(wire, link, end - 1);
      if DataAt(wire, end - 1)
         && forall i | 0 <= i < end - 1 && DataAt(wire, i) ::
              wire[i].packet.count == DataBefore(wire, i) % (if link then 4096 else 16) {
        CleanIffNumbered(wire, link, end - 1);
      }
    }
  }

  lemma ItemsInWords(n: nat, bytesPerItem: nat)
    requires 0 < bytesPerItem
    ensures var padding := -(n * bytesPerItem) % 4;
            && (n * bytesPerItem + 3) / 4 * 4 == n * bytesPerItem + padding
            && ((n * bytesPerItem + padding) / bytesPerItem == n <==> padding < bytesPerItem)
  {
    var bytes := n * bytesPerItem;
    var padding := -bytes % 4;
    Arith.MulMonotone(0, n, bytesPerItem);
    Arith.MulDistributes(n, 1, bytesPerItem);
    if padding < bytesPerItem {
      Arith.QuotientUnique(bytes + padding, bytesPerItem, n);
    } else {
      Arith.QuotientBounds(bytes + padding, bytesPerItem);
      assert (n + 1) * bytesPerItem <= bytes + padding;
    }
  }

  /** The items between the times of a gap report and of the packet before it:
      its payload, counted in whole words. They are the payload exactly when the
      padding to a whole word is smaller than an item. */
  lemma GapIsPayload(prev: Slot, c: nat, bytesPerItem: nat, sampRate: real)
    requires c < |prev.buffers| && 0 < bytesPerItem && sampRate > 0.0
    ensures var n := |prev.buffers[c].packet.payload|;
            var padding := -(n * bytesPerItem) % 4;
            var items := (GapTime(prev, c, bytesPerItem, sampRate) - prev.md.timeSpec) * sampRate;
            items == ((n * bytesPerItem + padding) / bytesPerItem) as real
            && (items == n as real <==> padding < bytesPerItem)
  {
    var n := |prev.buffers[c].packet.payload|;
    var padding := -(n * bytesPerItem) % 4;
    ItemsInWords(n, bytesPerItem);
    RealArith.DivTimes(((n * bytesPerItem + padding) / bytesPerItem) as real, sampRate);
  }

  /** What a report says of each kind of arrival, in the receive API's own codes. */
  lemma ReportCodes(md: Metadata, wire: seq<Arrival>, k: nat, prev: Slot, c: nat, bytesPerItem: nat, sampRate: real)
    requires c < |prev.buffers| && 0 < bytesPerItem && sampRate > 0.0
    requires Reports(md, wire, k, prev, c, bytesPerItem, sampRate)
    ensures !md.moreFragments && md.fragmentOffset == 0 && !md.startOfBurst && !md.endOfBurst
    ensures ArrivalAt(wire, k).Timeout? ==> md.errorCode == 1
    ensures ArrivalAt(wire, k).Malformed? ==> md.errorCode == 15
    ensures DataAt(wire, k) && Clean(wire, k) ==> md.errorCode == 12
    ensures !ArrivalAt(wire, k).Got? || Clean(wire, k) ==> !md.hasTimeSpec && md.timeSpec == 0.0 && !md.outOfSequence
    ensures k < |wire| && wire[k].Got? && !wire[k].packet.isData ==>
              && md.errorCode == wire[k].packet.code && md.timeSpec == wire[k].packet.time
              && md.hasTimeSpec == wire[k].packet.hasTsf && !md.outOfSequence
    ensures DataAt(wire, k) && !Clean(wire, k) ==>
              var n := |prev.buffers[c].packet.payload|;
              && md.errorCode == 8 && md.outOfSequence && md.hasTimeSpec == prev.md.hasTimeSpec
              && ((md.timeSpec - prev.md.timeSpec) * sampRate == n as real <==> -(n * bytesPerItem) % 4 < bytesPerItem)
  {
    hide GapTime, ExpectedCount;
    GapIsPayload(prev, c, bytesPerItem, sampRate);
  }
}
