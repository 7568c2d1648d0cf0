/** The alignment logic of the receive handler on values: the update made for
    one received packet, the invariant of a set under assembly, and the theorem
    that alignment computes the intersection of the channels' timestamps. */
module RecvAlign {
  import opened RecvTypes

  /** The update of a slot for the packet just stored at `index`: a newer time
      restarts the set around this packet, an equal time ticks the channel off,
      an older packet changes nothing. */
  function Checked(s: Slot, index: nat, bytesPerItem: nat): (r: Slot)
    requires index < |s.buffers| && index < |s.todo|
    ensures r.buffers == s.buffers && |r.todo| == |s.todo|
  {
    if !s.alignValid || s.buffers[index].time > s.alignTime then
      s.(alignValid := true,
         alignTime := s.buffers[index].time,
         todo := seq(|s.todo|, i => i != index),
         dataBytes := |s.buffers[index].packet.payload| * bytesPerItem)
    else if s.buffers[index].time == s.alignTime then
      s.(todo := s.todo[index := false])
    else
      s
  }

  /** What a set under assembly satisfies: every channel ticked off holds the
      latest data packet of its channel, taken since the previous set, stamped
      with the alignment time, and one of them gave the byte count. */
  ghost predicate Progress(s: Slot, hist: seq<seq<Packet>>, base: seq<nat>, bytesPerItem: nat)
    requires s.Sized(|hist|) && |base| == |hist|
  {
    && s.md == NO_METADATA && s.fragmentOffset == 0
    && (!s.alignValid ==> s.dataBytes == 0 && forall i | 0 <= i < |s.todo| :: s.todo[i])
    && (forall i | 0 <= i < |hist| :: !s.todo[i] ==> TickedOff(s, hist, base, i))
    && (s.alignValid ==> exists i | 0 <= i < |hist| :: LeadsSet(s, i, bytesPerItem))
  }

  ghost predicate TickedOff(s: Slot, hist: seq<seq<Packet>>, base: seq<nat>, i: nat)
    requires i < |hist| && s.Sized(|hist|) && |base| == |hist|
  {
    && base[i] < |hist[i]|
    && s.buffers[i] == FreshBuffer(hist[i][|hist[i]| - 1])
    && s.buffers[i].time == s.alignTime
  }

  ghost predicate LeadsSet(s: Slot, i: nat, bytesPerItem: nat)
    requires i < |s.todo| && |s.todo| == |s.buffers|
  {
    !s.todo[i] && s.dataBytes == |s.buffers[i].packet.payload| * bytesPerItem
  }

  /** A set under assembly after data packet `p` arrives on channel `index`;
      `restart` is the loss of the alignment time on a timestamp error. */
  function Received(s: Slot, index: nat, p: Packet, restart: bool, bytesPerItem: nat): (r: Slot)
    requires index < |s.buffers| && index < |s.todo|
    ensures |r.buffers| == |s.buffers| && |r.todo| == |s.todo|
  {
    var t := s.(buffers := s.buffers[index := FreshBuffer(p)]);
    var u := if restart && t.alignValid && t.alignTime != p.time then t.(alignValid := false) else t;
    Checked(u, index, bytesPerItem)
  }

  ghost function Taken(hist: seq<seq<Packet>>, index: nat, p: Packet): seq<seq<Packet>>
    requires index < |hist|
  {
    hist[index := hist[index] + [p]]
  }

  lemma ReceivedKeepsProgress(
    s: Slot, hist: seq<seq<Packet>>, base: seq<nat>, index: nat, p: Packet, restart: bool, bytesPerItem: nat)
    requires s.Sized(|hist|) && |base| == |hist| && index < |hist|
    requires base[index] <= |hist[index]|
    requires Progress(s, hist, base, bytesPerItem) && s.todo[index]
    ensures Progress(Received(s, index, p, restart, bytesPerItem), Taken(hist, index, p), base, bytesPerItem)
  {
    var r := Received(s, index, p, restart, bytesPerItem);
    var h := Taken(hist, index, p);
    assert h[index][|h[index]| - 1] == p;
    forall i | 0 <= i < |h| && !r.todo[i] ensures TickedOff(r, h, base, i) {
      if i != index {
        assert !s.todo[i] && TickedOff(s, hist, base, i);
      }
    }
    if r.alignTime == s.alignTime && r.alignValid && s.alignValid && r.dataBytes == s.dataBytes
       && (forall i | 0 <= i < |h| && i != index :: r.todo[i] == s.todo[i]) {
      var l :| 0 <= l < |hist| && LeadsSet(s, l, bytesPerItem);
      assert LeadsSet(r, l, bytesPerItem);
    } else {
      assert LeadsSet(r, index, bytesPerItem);
    }
  }

  // ---------------------------------------------------------------------
  // Which timestamps alignment delivers.
  // ---------------------------------------------------------------------

  /** Channel times that only move forward: the device clock is not set back
      while streaming. Times are decoded from unsigned tick counts. */
  ghost predicate Increasing(h: seq<Packet>) {
    && (forall a, b | 0 <= a < b < |h| :: h[a].time < h[b].time)
    && (forall a | 0 <= a < |h| :: h[a].time >= 0.0)
  }

  ghost predicate HasTime(h: seq<Packet>, t: real) {
    exists k | 0 <= k < |h| :: h[k].time == t
  }

  /** Received on every channel. */
  ghost predicate Common(hist: seq<seq<Packet>>, t: real) {
    forall i | 0 <= i < |hist| :: HasTime(hist[i], t)
  }

  ghost predicate Aligned(sets: seq<AlignedSet>, t: real) {
    exists k | 0 <= k < |sets| :: sets[k].time == t
  }

  /** Channel `h` has moved past `t` without ever yielding it. */
  ghost predicate Skipped(h: seq<Packet>, t: real) {
    h != [] && t < h[|h| - 1].time && !HasTime(h, t)
  }

  ghost predicate Settled(hist: seq<seq<Packet>>, sets: seq<AlignedSet>, t: real) {
    Aligned(sets, t) || exists i | 0 <= i < |hist| :: Skipped(hist[i], t)
  }

  ghost predicate SetsIncrease(sets: seq<AlignedSet>) {
    forall a, b | 0 <= a < b < |sets| :: sets[a].time < sets[b].time
  }

  /** Channel `h` lies below the alignment time, strictly while it is awaited. */
  ghost predicate Below(h: seq<Packet>, t: real, awaited: bool) {
    forall k | 0 <= k < |h| :: h[k].time <= t && (awaited ==> h[k].time < t)
  }

  ghost predicate EndsAt(h: seq<Packet>, t: real) {
    h != [] && h[|h| - 1].time == t
  }

  /** How far alignment has decided: every time before the alignment time (or up
      to the last completed set) was either delivered or is missing on a channel. */
  ghost predicate Frontier(s: Slot, hist: seq<seq<Packet>>, sets: seq<AlignedSet>)
    requires s.Sized(|hist|)
  {
    && SetsIncrease(sets)
    && if s.alignValid then
         && (forall t: real | t < s.alignTime :: Settled(hist, sets, t))
         && (forall i | 0 <= i < |hist| :: Below(hist[i], s.alignTime, s.todo[i]))
         && (sets != [] ==> sets[|sets| - 1].time < s.alignTime)
       else if sets == [] then
         forall i | 0 <= i < |hist| :: hist[i] == []
       else
         && (forall t: real | t <= sets[|sets| - 1].time :: Settled(hist, sets, t))
         && (forall i | 0 <= i < |hist| :: EndsAt(hist[i], sets[|sets| - 1].time))
  }

  lemma IncreasingBelowLast(h: seq<Packet>)
    requires Increasing(h) && h != []
    ensures Below(h, h[|h| - 1].time, false)
  {
  }

  lemma SettledStays(hist: seq<seq<Packet>>, sets: seq<AlignedSet>, index: nat, p: Packet, t: real)
    requires index < |hist| && Settled(hist, sets, t)
    requires Increasing(hist[index] + [p])
    ensures Settled(Taken(hist, index, p), sets, t)
  {
    var h := Taken(hist, index, p);
    if !Aligned(sets, t) {
      var i :| 0 <= i < |hist| && Skipped(hist[i], t);
      if i == index {
        var g := hist[index] + [p];
        assert g[|g| - 1] == p && g[|hist[index]| - 1].time < p.time;
        assert !HasTime(g, t) by {
          forall k | 0 <= k < |g| ensures g[k].time != t {
            if k < |hist[index]| { assert g[k] == hist[index][k]; }
          }
        }
      }
      assert Skipped(h[i], t);
    }
  }

  /** A time strictly between a channel's last packet and its next one is
      skipped by that channel. */
  lemma GapIsSkipped(h: seq<Packet>, p: Packet, t: real)
    requires Increasing(h + [p])
    requires t < p.time && forall k | 0 <= k < |h| :: h[k].time < t
    ensures Skipped(h + [p], t)
  {
    var g := h + [p];
    assert g[|g| - 1] == p;
    forall k | 0 <= k < |g| ensures g[k].time != t {
      if k < |h| { assert g[k] == h[k]; }
    }
  }

  lemma ReceivedKeepsFrontier(
    s: Slot, hist: seq<seq<Packet>>, sets: seq<AlignedSet>, index: nat, p: Packet, bytesPerItem: nat)
    requires s.Sized(|hist|) && index < |hist| && s.todo[index]
    requires forall i | 0 <= i < |hist| :: Increasing(Taken(hist, index, p)[i])
    requires Frontier(s, hist, sets)
    ensures Frontier(Received(s, index, p, false, bytesPerItem), Taken(hist, index, p), sets)
  {
    var h := Taken(hist, index, p);
    var r := Received(s, index, p, false, bytesPerItem);
    assert h[index] == hist[index] + [p];
    forall i | 0 <= i < |hist| && i != index ensures Increasing(hist[i]) {
      assert h[i] == hist[i];
    }
    if !s.alignValid {
      StartsFrontier(s, hist, sets, index, p);
    } else {
      forall t: real | t < r.alignTime ensures Settled(h, sets, t) {
        if t < s.alignTime {
          SettledStays(hist, sets, index, p, t);
        } else {
          assert Below(hist[index], s.alignTime, true);
          GapIsSkipped(hist[index], p, t);
          assert Skipped(h[index], t);
        }
      }
    }
    if s.alignValid {
      forall i | 0 <= i < |h| ensures Below(h[i], r.alignTime, r.todo[i]) {
        assert Below(hist[i], s.alignTime, s.todo[i]);
      }
    }
  }

  /** The first packet of a new set lies after everything delivered so far. */
  lemma StartsFrontier(s: Slot, hist: seq<seq<Packet>>, sets: seq<AlignedSet>, index: nat, p: Packet)
    requires s.Sized(|hist|) && index < |hist|
    requires !s.alignValid && Frontier(s, hist, sets)
    requires forall i | 0 <= i < |hist| :: Increasing(Taken(hist, index, p)[i])
    ensures forall t: real | t < p.time :: Settled(Taken(hist, index, p), sets, t)
    ensures forall i | 0 <= i < |hist| :: Below(Taken(hist, index, p)[i], p.time, i != index)
    ensures sets != [] ==> sets[|sets| - 1].time < p.time
  {
    var h := Taken(hist, index, p);
    assert h[index] == hist[index] + [p];
    forall i | 0 <= i < |hist| ensures Below(h[i], p.time, i != index)
                               ensures sets != [] ==> Below(hist[i], sets[|sets| - 1].time, false)
                               ensures sets != [] ==> sets[|sets| - 1].time < p.time
    {
      if sets != [] {
        var last := sets[|sets| - 1].time;
        assert EndsAt(hist[index], last) && EndsAt(hist[i], last);
        assert h[index][|hist[index]| - 1].time == last < h[index][|hist[index]|].time;
        assert Increasing(hist[i]) by { assert forall k | 0 <= k < |hist[i]| :: h[i][k] == hist[i][k]; }
        IncreasingBelowLast(hist[i]);
      }
      IncreasingBelowLast(h[index]);
    }
    if sets != [] {
      assert EndsAt(hist[index], sets[|sets| - 1].time);
    }
    forall t: real | t < p.time ensures Settled(h, sets, t) {
      if sets != [] && t <= sets[|sets| - 1].time {
        SettledStays(hist, sets, index, p, t);
      } else {
        if sets != [] { assert Below(hist[index], sets[|sets| - 1].time, false); }
        GapIsSkipped(hist[index], p, t);
        assert Skipped(h[index], t);
      }
    }
  }

  /** Completing a set moves the frontier to its time. */
  lemma CompletionKeepsFrontier(
    s: Slot, hist: seq<seq<Packet>>, base: seq<nat>, sets: seq<AlignedSet>, done: AlignedSet, empty: Slot,
    bytesPerItem: nat)
    requires s.Sized(|hist|) && empty.Sized(|hist|) && |base| == |hist|
    requires Frontier(s, hist, sets) && Progress(s, hist, base, bytesPerItem)
    requires s.alignValid && !empty.alignValid && done.time == s.alignTime
    requires forall i | 0 <= i < |hist| :: !s.todo[i]
    ensures Frontier(empty, hist, sets + [done])
  {
    var after := sets + [done];
    assert after[|after| - 1] == done;
    forall t: real | t <= done.time ensures Settled(hist, after, t) {
      if t == done.time {
        assert after[|sets|].time == t;
      } else {
        assert Settled(hist, sets, t);
        if Aligned(sets, t) {
          var k :| 0 <= k < |sets| && sets[k].time == t;
          assert after[k].time == t;
        }
      }
    }
    forall i | 0 <= i < |hist| ensures EndsAt(hist[i], done.time) {
      assert TickedOff(s, hist, base, i);
    }
  }

  /** Alignment is exact: on forward-moving channels a timestamp received on
      every channel has been delivered as a set, unless it is the one being
      assembled right now. */
  lemma CommonTimesAreAligned(s: Slot, hist: seq<seq<Packet>>, sets: seq<AlignedSet>, t: real)
    requires s.Sized(|hist|) && 0 < |hist|
    requires forall i | 0 <= i < |hist| :: Increasing(hist[i])
    requires Frontier(s, hist, sets)
    requires Common(hist, t)
    ensures Aligned(sets, t) || (s.alignValid && t == s.alignTime)
  {
    assert HasTime(hist[0], t);
    if s.alignValid {
      assert Below(hist[0], s.alignTime, s.todo[0]);
      assert t <= s.alignTime;
    } else {
      assert hist[0] != [];
      assert sets != [];
      assert EndsAt(hist[0], sets[|sets| - 1].time);
      IncreasingBelowLast(hist[0]);
      assert t <= sets[|sets| - 1].time;
    }
    if !(s.alignValid && t == s.alignTime) {
      assert Settled(hist, sets, t);
    }
  }
}
