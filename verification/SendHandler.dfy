/** The send packet handler: a call's samples are cut into fragments, and each
    fragment is committed on all channels or on none. */
module SendHandler {
  import Arith
  import opened Basics

  datatype TxMetadata = TxMetadata(hasTime: bool, time: real, startOfBurst: bool, endOfBurst: bool)

  /** The header fields a fragment is sent with. */
  datatype Header = Header(hasTime: bool, time: real, sob: bool, eob: bool)

  datatype TxPacket = TxPacket(word: nat, count: nat, header: Header, samples: seq<int>)

  function HeaderOf(md: TxMetadata): Header {
    Header(md.hasTime, md.time, md.startOfBurst, md.endOfBurst)
  }

  /** The header at the start of a call with samples: metadata cached by an
      earlier start of burst without samples is applied to it. */
  function OpeningHeader(md: TxMetadata, cached: Option<TxMetadata>): Header {
    match cached
    case None => HeaderOf(md)
    case Some(c) =>
      Header(if md.hasTime then true else c.hasTime, if md.hasTime then md.time else c.time, c.startOfBurst,
             c.endOfBurst)
  }

  // -------------------------------------------------------------------
  // What a call sends.
  // -------------------------------------------------------------------

  datatype Fragment = Fragment(offset: nat, length: nat, header: Header)

  function FragmentCount(n: nat, max: nat): nat
    requires 0 < n && 0 < max
  {
    (n - 1) / max + 1
  }

  /** Fragment `j` of a call that sends `n` samples. */
  function FragmentAt(n: nat, max: nat, md: TxMetadata, opening: Header, sampRate: real, j: nat): Fragment
    requires 0 < n && 0 < max && sampRate > 0.0 && j < FragmentCount(n, max)
  {
    var last := j == FragmentCount(n, max) - 1;
    var length := if last then (n - 1) % max + 1 else max;
    if n <= max then Fragment(0, n, opening)
    else
      Fragment(j * max, length,
               Header(opening.hasTime,
                      if j == 0 then opening.time else md.time + (j * max) as real / sampRate,
                      j == 0 && opening.sob,
                      last && md.endOfBurst))
  }

  /** The samples of the first `k` fragments: how far into the buffer they reach. */
  function Reached(n: nat, max: nat, k: nat): nat
    requires 0 < n && 0 < max && k <= FragmentCount(n, max)
  {
    if k == FragmentCount(n, max) then n else k * max
  }

  lemma CountFacts(n: nat, max: nat)
    requires 0 < n && 0 < max
    ensures var count := FragmentCount(n, max);
            && (count - 1) * max + (n - 1) % max + 1 == n
            && (n <= max <==> count == 1)
            && (count - 1) * max < n <= count * max
  {
    var q := (n - 1) / max;
    Arith.QuotientBounds(n - 1, max);
    assert n - 1 == max * q + (n - 1) % max;
    assert (q + 1) * max == q * max + max by { Arith.MulDistributes(q, 1, max); }
    if n <= max {
      Arith.QuotientUnique(n - 1, max, 0);
    }
  }

  /** The fragments tile the samples: each starts where the one before ended,
      has between one and `max` samples, and the last one ends the buffer. */
  lemma FragmentsTile(n: nat, max: nat, md: TxMetadata, opening: Header, sampRate: real, j: nat)
    requires 0 < n && 0 < max && sampRate > 0.0 && j < FragmentCount(n, max)
    ensures var f := FragmentAt(n, max, md, opening, sampRate, j);
            && f.offset == Reached(n, max, j) && f.offset + f.length == Reached(n, max, j + 1) <= n
            && 1 <= f.length <= max
            && (f.length < max ==> j == FragmentCount(n, max) - 1)
  {
    CountFacts(n, max);
    var count := FragmentCount(n, max);
    Arith.MulDistributes(j, 1, max);
    if j < count - 1 {
      Arith.MulMonotone(j + 1, count - 1, max);
    }
  }

  /** Without cached metadata the flags sit at the ends of the burst and every
      fragment is stamped with the time of its first sample. */
  lemma FlagsAndTimes(n: nat, max: nat, md: TxMetadata, sampRate: real, j: nat)
    requires 0 < n && 0 < max && sampRate > 0.0 && j < FragmentCount(n, max)
    ensures var f := FragmentAt(n, max, md, HeaderOf(md), sampRate, j);
            && f.header.hasTime == md.hasTime
            && f.header.time == md.time + f.offset as real / sampRate
            && (f.header.sob <==> md.startOfBurst && j == 0)
            && (f.header.eob <==> md.endOfBurst && j == FragmentCount(n, max) - 1)
  {
    CountFacts(n, max);
  }

  /** With cached metadata every time that is sent is that of its fragment's first
      sample exactly when the call is one packet, brings its own time, no time is
      sent at all, or the call happens to repeat the cached one ... */
  lemma CachedTimes(n: nat, max: nat, md: TxMetadata, c: TxMetadata, sampRate: real)
    requires 0 < n && 0 < max && sampRate > 0.0
    ensures var opening := OpeningHeader(md, Some(c));
            (forall j | 0 <= j < FragmentCount(n, max) ::
               var f := FragmentAt(n, max, md, opening, sampRate, j);
               f.header.hasTime ==> f.header.time == opening.time + f.offset as real / sampRate)
            <==> n <= max || md.hasTime || !c.hasTime || md.time == c.time
  {
    var opening := OpeningHeader(md, Some(c));
    CountFacts(n, max);
    if n > max {
      var f := FragmentAt(n, max, md, opening, sampRate, 1);
      assert f.header.time == md.time + f.offset as real / sampRate && f.header.hasTime == opening.hasTime;
    }
  }

  /** ... and the last fragment closes the burst as this call asked exactly when
      it is not the only one, or the cached metadata asked for the same. */
  lemma CachedEndOfBurst(n: nat, max: nat, md: TxMetadata, c: TxMetadata, sampRate: real)
    requires 0 < n && 0 < max && sampRate > 0.0
    ensures var f := FragmentAt(n, max, md, OpeningHeader(md, Some(c)), sampRate, FragmentCount(n, max) - 1);
            f.header.eob == md.endOfBurst <==> n > max || c.endOfBurst == md.endOfBurst
  {
    CountFacts(n, max);
  }

  /** The fragments before the last one, as the loop builds them ... */
  lemma LoopFragment(n: nat, max: nat, md: TxMetadata, opening: Header, sampRate: real, j: nat)
    requires 0 < max < n && sampRate > 0.0 && j < (n - 1) / max
    ensures j + 1 < FragmentCount(n, max)
    ensures var at := Reached(n, max, j);
            && Reached(n, max, j + 1) == at + max
            && FragmentAt(n, max, md, opening, sampRate, j)
            == Fragment(at, max, if j == 0 then opening.(eob := false)
                                 else Header(opening.hasTime, md.time + at as real / sampRate, false, false))
  {
    Arith.MulDistributes(j, 1, max);
  }

  /** ... and the last one. */
  lemma FinalFragment(n: nat, max: nat, md: TxMetadata, opening: Header, sampRate: real)
    requires 0 < max < n && sampRate > 0.0
    ensures 0 < (n - 1) / max && (n - 1) / max + 1 == FragmentCount(n, max)
    ensures var last := (n - 1) / max;
            var at := Reached(n, max, last);
            && Reached(n, max, last + 1) == n == at + (n - 1) % max + 1
            && FragmentAt(n, max, md, opening, sampRate, last)
            == Fragment(at, (n - 1) % max + 1,
                        Header(opening.hasTime, md.time + at as real / sampRate, false, md.endOfBurst))
  {
    CountFacts(n, max);
  }

  /** The samples in a run of packets. */
  ghost function Samples(packets: seq<TxPacket>): seq<int> {
    if packets == [] then [] else Samples(packets[..|packets| - 1]) + packets[|packets| - 1].samples
  }

  lemma SamplesStep(packets: seq<TxPacket>, p: TxPacket)
    ensures Samples(packets + [p]) == Samples(packets) + p.samples
  {
    assert (packets + [p])[..|packets|] == packets;
  }

  /** The channels that do not hold a buffer. */
  ghost function Wanting(held: seq<Option<nat>>): (w: nat)
    ensures w <= |held|
  {
    if held == [] then 0 else (if held[0].None? then 1 else 0) + Wanting(held[1..])
  }

  lemma {:induction false} WantingUpdate(held: seq<Option<nat>>, c: nat, word: nat)
    requires c < |held| && held[c].None?
    ensures Wanting(held[c := Some(word)]) == Wanting(held) - 1
  {
    var after := held[c := Some(word)];
    if c == 0 {
      assert after[1..] == held[1..];
    } else {
      WantingUpdate(held[1..], c - 1, word);
      assert after[1..] == held[1..][c - 1 := Some(word)];
    }
  }

  lemma {:induction false} WantingAll(held: seq<Option<nat>>)
    ensures (forall c | 0 <= c < |held| :: held[c].Some?) ==> Wanting(held) == 0
    ensures (forall c | 0 <= c < |held| :: held[c].None?) ==> Wanting(held) == |held|
  {
    if held != [] {
      WantingAll(held[1..]);
    }
  }

  /** The requests for buffers that the first `j` fragments of a call take on `n`
      channels of which `w` hold none when it begins. */
  ghost function Requests(w: nat, n: nat, j: nat): nat {
    if j == 0 then 0 else w + (j - 1) * n
  }

  lemma RequestsStep(w: nat, n: nat, j: nat)
    ensures Requests(w, n, 0) == 0 && Requests(w, n, j + 1) == Requests(w, n, j) + if j == 0 then w else n
  {
    if j > 0 {
      Arith.MulDistributes(j - 1, 1, n);
    }
  }

  lemma RequestsGrow(w: nat, n: nat, i: nat, j: nat)
    requires i <= j
    ensures Requests(w, n, i) <= Requests(w, n, j)
  {
    if 0 < i {
      Arith.MulMonotone(i - 1, j - 1, n);
    }
  }

  class Handler {
    const n: nat
    const max: nat
    const sampRate: real
    /** Whether the k-th request for a send buffer is met before its timeout. */
    const buffAt: nat -> bool

    var calls: nat
    var nextSeq: nat
    var cached: Option<TxMetadata>
    /** A buffer already taken, by its flow-control word. */
    var held: seq<Option<nat>>
    /** The next flow-control word of each channel. */
    var flowSeq: seq<nat>
    /** Packets committed on each channel. */
    var wires: seq<seq<TxPacket>>

    ghost predicate Valid()
      reads this
    {
      && 0 < max && sampRate > 0.0
      && |held| == |flowSeq| == |wires| == n
      && forall c | 0 <= c < n :: ChannelOk(wires[c], held[c], flowSeq[c], nextSeq)
    }

    /** The next `count` requests are met in time. */
    ghost predicate Served(from: nat, count: nat) {
      forall k | from <= k < from + count :: buffAt(k)
    }

    /** The next attempt at a packet will find a buffer for every channel. */
    ghost predicate WillSend()
      reads this
    {
      Served(calls, Wanting(held))
    }

    constructor (n: nat, max: nat, sampRate: real, buffAt: nat -> bool)
      requires 0 < max && sampRate > 0.0
      ensures Valid() && cached.None? && nextSeq == 0 && wires == seq(n, _ => [])
      ensures calls == 0 && held == seq(n, _ => None)
      ensures this.n == n && this.max == max && this.sampRate == sampRate && this.buffAt == buffAt
    {
      this.n, this.max, this.sampRate, this.buffAt := n, max, sampRate, buffAt;
      calls, nextSeq, cached := 0, 0, None;
      held, flowSeq, wires := seq(n, _ => None), seq(n, _ => 0), seq(n, _ => []);
    }

    /** Takes a buffer for every channel that does not hold one from an earlier
        attempt, one request each; gives up at the first timeout, keeping what it
        has. */
    method TakeBuffers() returns (ok: bool)
      requires Valid()
      modifies `calls, `held, `flowSeq
      ensures Valid()
      ensures ok <==> old(WillSend())
      ensures ok ==> calls == old(calls + Wanting(held)) && forall c | 0 <= c < n :: held[c].Some?
      ensures !ok ==>
                && old(calls) < calls <= old(calls + Wanting(held))
                && Served(old(calls), calls - 1 - old(calls)) && !buffAt(calls - 1)
                && calls - 1 + Wanting(held) == old(calls + Wanting(held))
      ensures forall c | 0 <= c < n && old(held[c]).Some? :: held[c] == old(held[c])
    {
      hide Wanting, Served, ChannelOk;
      NothingServed(calls);
      for c := 0 to n
        invariant Valid() && old(calls) <= calls && calls + Wanting(held) == old(calls + Wanting(held))
        invariant Served(old(calls), calls - old(calls))
        invariant forall i | 0 <= i < c :: held[i].Some?
        invariant forall i | 0 <= i < n && old(held[i]).Some? :: held[i] == old(held[i])
      {
        if held[c].None? {
          WantingUpdate(held, c, flowSeq[c]);
          ServedMore(old(calls), calls - old(calls));
          var got := TakeBuffer(c);
          if !got {
            NotServed(old(calls), old(Wanting(held)), calls - 1);
            return false;
          }
        }
      }
      WantingAll(held);
      ok := true;
    }

    /** One request for a buffer. */
    method TakeBuffer(c: nat) returns (got: bool)
      requires Valid() && c < n && held[c].None?
      modifies `calls, `held, `flowSeq
      ensures Valid() && calls == old(calls) + 1 && got == buffAt(old(calls))
      ensures held == if got then old(held)[c := Some(old(flowSeq[c]))] else old(held)
    {
      assert ChannelOk(wires[c], held[c], flowSeq[c], nextSeq);
      got := buffAt(calls);
      calls := calls + 1;
      if got {
        held := held[c := Some(flowSeq[c])];
        flowSeq := flowSeq[c := (flowSeq[c] + 1) % TWO32];
      }
    }

    /** Packs and commits the fragment on every channel. */
    method CommitAll(buffs: seq<seq<int>>, header: Header, offset: nat, length: nat)
      requires Valid() && (forall c | 0 <= c < n :: held[c].Some?)
      requires |buffs| == n && forall c | 0 <= c < n :: offset + length <= |buffs[c]|
      modifies `held, `wires, `nextSeq
      ensures Valid() && nextSeq == old(nextSeq) + 1 && forall c | 0 <= c < n :: held[c].None?
      ensures forall c | 0 <= c < n ::
                wires[c] == old(wires[c]) + [PacketFor(old(nextSeq), header, buffs[c][offset..offset + length])]
    {
      for c := 0 to n
        modifies `held, `wires
        invariant |held| == |wires| == n
        invariant forall i | 0 <= i < c :: held[i].None? && ChannelOk(wires[i], None, flowSeq[i], nextSeq + 1)
        invariant forall i | c <= i < n :: held[i].Some? && ChannelOk(wires[i], held[i], flowSeq[i], nextSeq)
        invariant forall i | 0 <= i < c ::
                    wires[i] == old(wires[i]) + [PacketFor(nextSeq, header, buffs[i][offset..offset + length])]
        invariant forall i | c <= i < n :: wires[i] == old(wires[i])
      {
        var p := TxPacket(held[c].value, nextSeq, header, buffs[c][offset..offset + length]);
        wires := wires[c := wires[c] + [p]];
        held := held[c := None];
      }
      nextSeq := nextSeq + 1;
    }

    /** Sends one fragment on all channels, or, on a timeout, on none. */
    method SendOnePacket(buffs: seq<seq<int>>, header: Header, offset: nat, length: nat) returns (r: nat)
      requires Valid() && |buffs| == n && forall c | 0 <= c < n :: offset + length <= |buffs[c]|
      modifies `calls, `held, `flowSeq, `wires, `nextSeq
      ensures Valid()
      ensures !old(WillSend()) ==>
                && r == 0 && wires == old(wires) && nextSeq == old(nextSeq)
                && old(calls) < calls && Served(old(calls), calls - 1 - old(calls)) && !buffAt(calls - 1)
                && calls - 1 + Wanting(held) == old(calls + Wanting(held))
      ensures old(WillSend()) ==>
                && r == length && nextSeq == old(nextSeq) + 1
                && calls == old(calls + Wanting(held)) && Wanting(held) == n
                && forall c | 0 <= c < n ::
                     wires[c] == old(wires[c]) + [PacketFor(old(nextSeq), header, buffs[c][offset..offset + length])]
    {
      var ok := TakeBuffers();
      if !ok {
        return 0;
      }
      CommitAll(buffs, header, offset, length);
      WantingAll(held);
      r := length;
    }

    /** Of a call of `count` fragments exactly the first `k` are committed: fragment
        `j` is, exactly when all requests up to it are met in time. */
    ghost predicate Commits(from: nat, w: nat, count: nat, k: nat) {
      && k <= count
      && forall j: nat | 0 < j <= count :: j <= k <==> Served(from, Requests(w, n, j))
    }

    /** Sends a call's samples. The value returned counts the samples committed
        on every channel alike: whole fragments from the front of the buffers,
        all of them exactly when no buffer request times out. */
    method Send(buffs: seq<seq<int>>, nsamps: nat, md: TxMetadata) returns (r: nat)
      requires Valid() && |buffs| == n && forall c | 0 <= c < n :: nsamps <= |buffs[c]|
      modifies `calls, `held, `flowSeq, `wires, `nextSeq, `cached
      ensures Valid()
      ensures nsamps > 0 ==>
                var k := nextSeq - old(nextSeq);
                && cached.None?
                && 0 <= k <= FragmentCount(nsamps, max) && r == Reached(nsamps, max, k)
                && r == (if k * max < nsamps then k * max else nsamps)
                && forall c | 0 <= c < n ::
                     Carries(wires[c], old(wires[c]), buffs[c], nsamps, max, md, OpeningHeader(md, old(cached)),
                             sampRate, k)
      ensures nsamps > 0 ==>
                forall c, j | 0 <= c < n && old(nextSeq) <= j < nextSeq ::
                  Stamped(wires[c][j].header, md, old(cached), nsamps, max, sampRate, (j - old(nextSeq)) * max)
      ensures nsamps > 0 ==> r <= nsamps && forall c | 0 <= c < n :: Samples(wires[c][old(nextSeq)..]) == buffs[c][..r]
      ensures nsamps > 0 && old(cached).Some? && old(nextSeq) < nextSeq ==>
                forall c | 0 <= c < n ::
                  var m, h := old(cached).value, wires[c][old(nextSeq)].header;
                  && h.hasTime == (md.hasTime || m.hasTime) && h.time == (if md.hasTime then md.time else m.time)
                  && h.sob == m.startOfBurst
                  && forall j | old(nextSeq) <= j < nextSeq :: wires[c][j].header.hasTime == h.hasTime
      ensures nsamps > 0 ==>
                && Commits(old(calls), old(Wanting(held)), FragmentCount(nsamps, max), nextSeq - old(nextSeq))
                && (r == nsamps <==> Served(old(calls), Requests(old(Wanting(held)), n, FragmentCount(nsamps, max))))
                && (r == 0 <==> !old(WillSend()))
      ensures nsamps > 0 && r == 0 ==> wires == old(wires)
      ensures nsamps > 0 && r < nsamps ==> GaveUp(old(calls), old(Wanting(held)), nextSeq - old(nextSeq))
      ensures nsamps > 0 && r == nsamps ==> Accounted(old(calls), old(Wanting(held)), FragmentCount(nsamps, max))
      ensures nsamps == 0 ==> r == 0
      ensures nsamps == 0 && md.startOfBurst ==>
                && cached == Some(md) && wires == old(wires) && nextSeq == old(nextSeq)
                && calls == old(calls) && held == old(held)
      ensures nsamps == 0 && !md.startOfBurst ==>
                && cached == old(cached)
                && nextSeq == old(nextSeq) + (if old(WillSend()) then 1 else 0)
                && forall c | 0 <= c < n ::
                     wires[c] == old(wires[c])
                       + if nextSeq == old(nextSeq) then [] else [PacketFor(old(nextSeq), HeaderOf(md), [0])]
    {
      hide Carries, ChannelOk, Commits, Accounted, GaveUp, Requests, Wanting, Served, Reached, FragmentCount;
      hide Stamped, Samples, OpeningHeader;
      if nsamps == 0 {
        if md.startOfBurst {
          cached := Some(md);
          return 0;
        }
        var zeros := seq(n, _ => [0]);
        assert forall c | 0 <= c < n :: zeros[c][0..1] == [0];
        r := SendOnePacket(zeros, HeaderOf(md), 0, 1);
        return 0;
      }
      WiresNumbered();
      r := SendCall(buffs, nsamps, md);
      WiresNumbered();
      CallOnWires(wires, old(wires), buffs, nsamps, max, md, old(cached), sampRate, old(nextSeq), nextSeq);
      CachedOnWires(wires, md, old(cached), nsamps, max, sampRate, old(nextSeq), nextSeq);
    }

    /** A call with samples, in terms of the planned fragments. */
    method SendCall(buffs: seq<seq<int>>, nsamps: nat, md: TxMetadata) returns (r: nat)
      requires Valid() && |buffs| == n && 0 < nsamps && forall c | 0 <= c < n :: nsamps <= |buffs[c]|
      modifies `calls, `held, `flowSeq, `wires, `nextSeq, `cached
      ensures Valid() && cached.None?
      ensures var k := nextSeq - old(nextSeq);
              && 0 <= k <= FragmentCount(nsamps, max) && r == Reached(nsamps, max, k)
              && r == (if k * max < nsamps then k * max else nsamps)
              && forall c | 0 <= c < n ::
                   Carries(wires[c], old(wires[c]), buffs[c], nsamps, max, md, OpeningHeader(md, old(cached)),
                           sampRate, k)
      ensures Commits(old(calls), old(Wanting(held)), FragmentCount(nsamps, max), nextSeq - old(nextSeq))
      ensures r == nsamps <==> Served(old(calls), Requests(old(Wanting(held)), n, FragmentCount(nsamps, max)))
      ensures r == 0 <==> !old(WillSend())
      ensures r == 0 ==> wires == old(wires)
      ensures r < nsamps ==> GaveUp(old(calls), old(Wanting(held)), nextSeq - old(nextSeq))
      ensures r == nsamps ==> Accounted(old(calls), old(Wanting(held)), FragmentCount(nsamps, max))
    {
      hide Carries, ChannelOk, Commits, Accounted, GaveUp, Requests, Wanting, Served, Reached, FragmentCount;
      var header := OpeningHeader(md, cached);
      cached := None;
      r := SendSamples(buffs, nsamps, md, header);
      ReachedFacts(nsamps, max, nextSeq - old(nextSeq));
      CommitsAllIff(old(calls), old(Wanting(held)), FragmentCount(nsamps, max), nextSeq - old(nextSeq));
      if r == 0 {
        forall c | 0 <= c < n ensures wires[c] == old(wires[c]) {
          CarriesNone(wires[c], old(wires[c]), buffs[c], nsamps, max, md, header, sampRate);
        }
      }
    }

    /** In every reachable state all wires carry equally many packets, numbered
        from zero by the packet counter and, modulo 2^32, by flow control. */
    lemma WiresNumbered()
      requires Valid()
      ensures forall c | 0 <= c < n :: |wires[c]| == nextSeq
      ensures forall c, k | 0 <= c < n && 0 <= k < nextSeq ::
                wires[c][k].word == k % 0x1_0000_0000 && wires[c][k].count == k
    {
    }

    /** The requests made for the first `j` fragments of a call were all met. */
    ghost predicate Accounted(from: nat, w: nat, j: nat)
      reads this
    {
      && calls == from + Requests(w, n, j) && Served(from, Requests(w, n, j))
      && Wanting(held) == if j == 0 then w else n
    }

    /** The call stopped after `k` fragments, at the first request that was not met,
        and keeps the buffers it has taken for the next one. */
    ghost predicate GaveUp(from: nat, w: nat, k: nat)
      reads this
    {
      && from < calls && Served(from, calls - 1 - from) && !buffAt(calls - 1)
      && calls - 1 + Wanting(held) == from + Requests(w, n, k + 1)
    }

    /** Sends fragment `j` of a call of which the wires carry the first `j`. */
    method SendFragment(buffs: seq<seq<int>>, nsamps: nat, f: Fragment, ghost md: TxMetadata, ghost opening: Header,
                        ghost j: nat, ghost base: seq<seq<TxPacket>>, ghost from: nat, ghost w: nat)
      returns (sent: nat)
      requires Valid() && |buffs| == |base| == n && 0 < nsamps && forall c | 0 <= c < n :: nsamps <= |buffs[c]|
      requires j < FragmentCount(nsamps, max) && f == FragmentAt(nsamps, max, md, opening, sampRate, j)
      requires forall c | 0 <= c < n :: Carries(wires[c], base[c], buffs[c], nsamps, max, md, opening, sampRate, j)
      requires Accounted(from, w, j)
      modifies `calls, `held, `flowSeq, `wires, `nextSeq
      ensures Valid()
      ensures old(calls) <= calls
      ensures sent != 0 <==> Served(from, Requests(w, n, j + 1))
      ensures sent == 0 ==> nextSeq == old(nextSeq) && wires == old(wires) && GaveUp(from, w, j)
      ensures sent != 0 ==>
                && sent == f.length && nextSeq == old(nextSeq) + 1 && Accounted(from, w, j + 1)
                && forall c | 0 <= c < n :: Carries(wires[c], base[c], buffs[c], nsamps, max, md, opening, sampRate,
                                                    j + 1)
    {
      hide Carries, ChannelOk, FragmentAt, Requests, Wanting, Served;
      FragmentsTile(nsamps, max, md, opening, sampRate, j);
      RequestsStep(w, n, j);
      ServedSplit(from, Requests(w, n, j), Wanting(held));
      sent := SendOnePacket(buffs, f.header, f.offset, f.length);
      if sent == 0 {
        ServedSplit(from, Requests(w, n, j), calls - 1 - old(calls));
      } else {
        forall c | 0 <= c < n
          ensures Carries(wires[c], base[c], buffs[c], nsamps, max, md, opening, sampRate, j + 1)
        {
          CarriesMore(old(wires[c]), base[c], buffs[c], nsamps, max, md, opening, sampRate, j, old(nextSeq));
        }
      }
    }

    method SendSamples(buffs: seq<seq<int>>, nsamps: nat, md: TxMetadata, opening: Header) returns (r: nat)
      requires Valid() && |buffs| == n && 0 < nsamps && forall c | 0 <= c < n :: nsamps <= |buffs[c]|
      modifies `calls, `held, `flowSeq, `wires, `nextSeq
      ensures Valid()
      ensures var k := nextSeq - old(nextSeq);
              && 0 <= k <= FragmentCount(nsamps, max) && r == Reached(nsamps, max, k)
              && forall c | 0 <= c < n ::
                   Carries(wires[c], old(wires[c]), buffs[c], nsamps, max, md, opening, sampRate, k)
      ensures Commits(old(calls), old(Wanting(held)), FragmentCount(nsamps, max), nextSeq - old(nextSeq))
      ensures r < nsamps ==> GaveUp(old(calls), old(Wanting(held)), nextSeq - old(nextSeq))
      ensures r == nsamps ==> Accounted(old(calls), old(Wanting(held)), FragmentCount(nsamps, max))
    {
      hide Carries, ChannelOk, Commits, Accounted, GaveUp, Requests, Wanting, Served;
      CountFacts(nsamps, max);
      if nsamps > max {
        r := SendMany(buffs, nsamps, md, opening);
        return;
      }
      ghost var w, from := Wanting(held), calls;
      StartsAccounted();
      forall c | 0 <= c < n { CarriesNothing(wires[c], buffs[c], nsamps, max, md, opening, sampRate); }
      r := SendFragment(buffs, nsamps, Fragment(0, nsamps, opening), md, opening, 0, wires, from, w);
      CommitsAt(from, w, 1, if r == 0 then 0 else 1);
    }

    /** A call of more than one packet. */
    method SendMany(buffs: seq<seq<int>>, nsamps: nat, md: TxMetadata, opening: Header) returns (r: nat)
      requires Valid() && |buffs| == n && 0 < nsamps && forall c | 0 <= c < n :: nsamps <= |buffs[c]|
      requires max < nsamps
      modifies `calls, `held, `flowSeq, `wires, `nextSeq
      ensures Valid()
      ensures var k := nextSeq - old(nextSeq);
              && 0 <= k <= FragmentCount(nsamps, max) && r == Reached(nsamps, max, k)
              && forall c | 0 <= c < n ::
                   Carries(wires[c], old(wires[c]), buffs[c], nsamps, max, md, opening, sampRate, k)
      ensures Commits(old(calls), old(Wanting(held)), FragmentCount(nsamps, max), nextSeq - old(nextSeq))
      ensures r < nsamps ==> GaveUp(old(calls), old(Wanting(held)), nextSeq - old(nextSeq))
      ensures r == nsamps ==> Accounted(old(calls), old(Wanting(held)), FragmentCount(nsamps, max))
    {
      hide Carries, ChannelOk, Commits, Accounted, GaveUp, Requests, Wanting, Served, FragmentAt, Reached;
      hide FragmentCount;
      ghost var w, from := Wanting(held), calls;
      StartsAccounted();
      FinalFragment(nsamps, max, md, opening, sampRate);
      ReachedFacts(nsamps, max, 0);
      forall c | 0 <= c < n { CarriesNothing(wires[c], buffs[c], nsamps, max, md, opening, sampRate); }
      var header := opening.(eob := false);
      r := 0;
      var fragments, finalLength := (nsamps - 1) / max, (nsamps - 1) % max + 1;
      for i := 0 to fragments
        invariant Valid() && nextSeq == old(nextSeq) + i && r == Reached(nsamps, max, i) && from <= calls
        invariant Accounted(from, w, i) && Served(from, Requests(w, n, i))
        invariant header == (if i == 0 then opening.(eob := false)
                             else Header(opening.hasTime, md.time + r as real / sampRate, false, false))
        invariant forall c | 0 <= c < n ::
                    Carries(wires[c], old(wires[c]), buffs[c], nsamps, max, md, opening, sampRate, i)
      {
        LoopFragment(nsamps, max, md, opening, sampRate, i);
        var sent := SendFragment(buffs, nsamps, Fragment(r, max, header), md, opening, i, old(wires), from, w);
        r := r + sent;
        if sent == 0 {
          CommitsAt(from, w, fragments + 1, i);
          ReachedFacts(nsamps, max, i);
          return;
        }
        header := Header(header.hasTime, md.time + r as real / sampRate, false, false);
      }
      header := header.(eob := md.endOfBurst);
      var sent := SendFragment(buffs, nsamps, Fragment(r, finalLength, header), md, opening, fragments, old(wires),
                               from, w);
      r := r + sent;
      CommitsAt(from, w, fragments + 1, if sent == 0 then fragments else fragments + 1);
    }

    lemma CommitsAllIff(from: nat, w: nat, count: nat, k: nat)
      requires Commits(from, w, count, k) && 0 < count
      ensures k == count <==> Served(from, Requests(w, n, count))
      ensures k == 0 <==> !Served(from, w)
    {
      assert count <= k <==> Served(from, Requests(w, n, count));
      assert 1 <= k <==> Served(from, Requests(w, n, 1));
    }

    lemma StartsAccounted()
      ensures Accounted(calls, Wanting(held), 0) && Served(calls, Requests(Wanting(held), n, 0))
    {
      NothingServed(calls);
    }

    lemma NothingServed(from: nat)
      ensures Served(from, 0)
    {
    }

    lemma ServedMore(from: nat, a: nat)
      ensures Served(from, a + 1) <==> Served(from, a) && buffAt(from + a)
    {
    }

    lemma NotServed(from: nat, count: nat, k: nat)
      requires from <= k < from + count && !buffAt(k)
      ensures !Served(from, count)
    {
    }

    lemma ServedSplit(from: nat, a: nat, b: nat)
      ensures Served(from, a + b) <==> Served(from, a) && Served(from + a, b)
    {
      if Served(from, a) && Served(from + a, b) {
        forall k | from <= k < from + (a + b) ensures buffAt(k) {
          assert k < from + a || from + a <= k;
        }
      }
    }

    lemma CommitsAt(from: nat, w: nat, count: nat, k: nat)
      requires k <= count && Served(from, Requests(w, n, k))
      requires k < count ==> !Served(from, Requests(w, n, k + 1))
      ensures Commits(from, w, count, k)
    {
      forall j: nat | 0 < j <= count ensures j <= k <==> Served(from, Requests(w, n, j)) {
        hide Requests;
        if j <= k {
          RequestsGrow(w, n, j, k);
        } else {
          RequestsGrow(w, n, k + 1, j);
        }
      }
    }
  }

  /** Packet number `k` on every wire. */
  function PacketFor(k: nat, header: Header, samples: seq<int>): TxPacket {
    TxPacket(k % TWO32, k, header, samples)
  }

  /** A wire carries, after what it had, the first `k` fragments of a call, and
      so exactly the samples they reach from the front of the buffer. */
  ghost predicate Carries(wire: seq<TxPacket>, before: seq<TxPacket>, buff: seq<int>, nsamps: nat, max: nat,
                          md: TxMetadata, opening: Header, sampRate: real, k: nat)
    requires 0 < nsamps <= |buff| && 0 < max && sampRate > 0.0 && k <= FragmentCount(nsamps, max)
  {
    && |wire| == |before| + k && wire[..|before|] == before
    && (forall j | 0 <= j < k ::
          var f := FragmentAt(nsamps, max, md, opening, sampRate, j);
          wire[|before| + j].header == f.header && |wire[|before| + j].samples| == f.length)
    && Reached(nsamps, max, k) <= nsamps
    && Samples(wire[|before|..]) == buff[..Reached(nsamps, max, k)]
  }

  lemma CarriesNothing(wire: seq<TxPacket>, buff: seq<int>, nsamps: nat, max: nat, md: TxMetadata, opening: Header,
                       sampRate: real)
    requires 0 < nsamps <= |buff| && 0 < max && sampRate > 0.0
    ensures Carries(wire, wire, buff, nsamps, max, md, opening, sampRate, 0)
  {
    assert wire[|wire|..] == [];
    CountFacts(nsamps, max);
    assert Reached(nsamps, max, 0) == 0;
  }

  lemma CarriesNone(wire: seq<TxPacket>, before: seq<TxPacket>, buff: seq<int>, nsamps: nat, max: nat,
                    md: TxMetadata, opening: Header, sampRate: real)
    requires 0 < nsamps <= |buff| && 0 < max && sampRate > 0.0
    requires Carries(wire, before, buff, nsamps, max, md, opening, sampRate, 0)
    ensures wire == before
  {
  }

  lemma CarriesMore(wire: seq<TxPacket>, before: seq<TxPacket>, buff: seq<int>, nsamps: nat, max: nat,
                    md: TxMetadata, opening: Header, sampRate: real, k: nat, number: nat)
    requires 0 < nsamps <= |buff| && 0 < max && sampRate > 0.0 && k < FragmentCount(nsamps, max)
    requires Carries(wire, before, buff, nsamps, max, md, opening, sampRate, k)
    ensures var f := FragmentAt(nsamps, max, md, opening, sampRate, k);
            && f.offset + f.length <= |buff|
            && Carries(wire + [PacketFor(number, f.header, buff[f.offset..f.offset + f.length])], before,
                       buff, nsamps, max, md, opening, sampRate, k + 1)
  {
    FragmentsTile(nsamps, max, md, opening, sampRate, k);
    var f := FragmentAt(nsamps, max, md, opening, sampRate, k);
    var p := PacketFor(number, f.header, buff[f.offset..f.offset + f.length]);
    var after := wire + [p];
    assert after[|before|..] == wire[|before|..] + [p];
    SamplesStep(wire[|before|..], p);
    assert buff[..f.offset] + buff[f.offset..f.offset + f.length] == buff[..f.offset + f.length];
    assert after[..|before|] == before;
    forall j | 0 <= j < k + 1
      ensures after[|before| + j].header == FragmentAt(nsamps, max, md, opening, sampRate, j).header
    {
      if j < k { assert after[|before| + j] == wire[|before| + j]; }
    }
  }

  /** A channel has committed every packet so far, numbered consecutively in both
      counters, and the word of a held buffer is the next one. */
  ghost predicate ChannelOk(wire: seq<TxPacket>, held: Option<nat>, flowSeq: nat, nextSeq: nat) {
    && |wire| == nextSeq
    && (forall k | 0 <= k < |wire| :: wire[k].word == k % TWO32 && wire[k].count == k)
    && match held
       case None => flowSeq == nextSeq % TWO32
       case Some(word) => word == nextSeq % TWO32 && flowSeq == (nextSeq + 1) % TWO32
  }

  /** The header of the fragment that starts at sample `at` of a call, field by
      field: with metadata cached by an earlier call its flags, and its time
      unless this call brings one, are those of the first packet. */
  ghost predicate Stamped(h: Header, md: TxMetadata, cached: Option<TxMetadata>, nsamps: nat, max: nat,
                          sampRate: real, at: int)
    requires sampRate > 0.0
  {
    match cached
    case None =>
      && h.hasTime == md.hasTime && h.time == md.time + at as real / sampRate
      && (h.sob <==> md.startOfBurst && at == 0)
      && (h.eob <==> md.endOfBurst && nsamps <= at + max)
    case Some(m) =>
      && h.hasTime == (md.hasTime || m.hasTime)
      && h.time == (if at == 0 && !md.hasTime then m.time else md.time + at as real / sampRate)
      && (h.sob <==> m.startOfBurst && at == 0)
      && (h.eob <==> (if nsamps <= max then m else md).endOfBurst && nsamps <= at + max)
  }

  lemma HeadersOnWire(wire: seq<TxPacket>, before: seq<TxPacket>, buff: seq<int>, nsamps: nat, max: nat,
                      md: TxMetadata, cached: Option<TxMetadata>, sampRate: real, k: nat, j: nat)
    requires 0 < nsamps <= |buff| && 0 < max && sampRate > 0.0 && k <= FragmentCount(nsamps, max)
    requires Carries(wire, before, buff, nsamps, max, md, OpeningHeader(md, cached), sampRate, k)
    requires |before| <= j < |wire|
    ensures Stamped(wire[j].header, md, cached, nsamps, max, sampRate, (j - |before|) * max)
  {
    var i := j - |before|;
    assert wire[|before| + i].header
        == FragmentAt(nsamps, max, md, OpeningHeader(md, cached), sampRate, i).header;
    FragmentsTile(nsamps, max, md, OpeningHeader(md, cached), sampRate, i);
    CountFacts(nsamps, max);
    Arith.MulMonotone(if i == 0 then 0 else 1, i, max);
    Arith.MulDistributes(i, 1, max);
    if i + 1 < FragmentCount(nsamps, max) {
      Arith.MulMonotone(i + 1, FragmentCount(nsamps, max) - 1, max);
    }
  }

  lemma CallOnWires(wires: seq<seq<TxPacket>>, before: seq<seq<TxPacket>>, buffs: seq<seq<int>>, nsamps: nat,
                       max: nat, md: TxMetadata, cached: Option<TxMetadata>, sampRate: real, start: nat, end: nat)
    requires 0 < nsamps && 0 < max && sampRate > 0.0 && start <= end <= start + FragmentCount(nsamps, max)
    requires |wires| == |before| == |buffs|
    requires forall c | 0 <= c < |wires| :: |before[c]| == start && |wires[c]| == end && nsamps <= |buffs[c]|
    requires forall c | 0 <= c < |wires| ::
      Carries(wires[c], before[c], buffs[c], nsamps, max, md, OpeningHeader(md, cached), sampRate, end - start)
    ensures forall c, j | 0 <= c < |wires| && start <= j < end ::
      Stamped(wires[c][j].header, md, cached, nsamps, max, sampRate, (j - start) * max)
    ensures Reached(nsamps, max, end - start) <= nsamps
    ensures forall c | 0 <= c < |wires| ::
      Samples(wires[c][start..]) == buffs[c][..Reached(nsamps, max, end - start)]
  {
    hide OpeningHeader, FragmentCount, Stamped, Reached;
    ReachedFacts(nsamps, max, end - start);
    forall c, j | 0 <= c < |wires| && start <= j < end
      ensures Stamped(wires[c][j].header, md, cached, nsamps, max, sampRate, (j - start) * max)
    {
      HeadersOnWire(wires[c], before[c], buffs[c], nsamps, max, md, cached, sampRate, end - start, j);
    }
  }

  /** The first packet of a call that takes up cached metadata, and whether the
      others carry a time. */
  lemma CachedOnWires(wires: seq<seq<TxPacket>>, md: TxMetadata, cached: Option<TxMetadata>, nsamps: nat, max: nat,
                      sampRate: real, start: nat, end: nat)
    requires sampRate > 0.0 && forall c | 0 <= c < |wires| :: |wires[c]| == end
    requires forall c, j | 0 <= c < |wires| && start <= j < end ::
      Stamped(wires[c][j].header, md, cached, nsamps, max, sampRate, (j - start) * max)
    ensures cached.Some? && start < end ==>
              forall c | 0 <= c < |wires| ::
                var m, h := cached.value, wires[c][start].header;
                && h.hasTime == (md.hasTime || m.hasTime) && h.time == (if md.hasTime then md.time else m.time)
                && h.sob == m.startOfBurst
                && forall j | start <= j < end :: wires[c][j].header.hasTime == h.hasTime
  {
    assert (start - start) * max == 0;
  }

  lemma ReachedFacts(n: nat, max: nat, k: nat)
    requires 0 < n && 0 < max && k <= FragmentCount(n, max)
    ensures 0 < FragmentCount(n, max) && Reached(n, max, k) <= n
    ensures Reached(n, max, k) == n <==> k == FragmentCount(n, max)
    ensures Reached(n, max, k) == 0 <==> k == 0
    ensures Reached(n, max, k) == if k * max < n then k * max else n
  {
    CountFacts(n, max);
    if k < FragmentCount(n, max) {
      Arith.MulMonotone(k, FragmentCount(n, max) - 1, max);
      if 0 < k {
        Arith.MulMonotone(1, k, max);
      }
    }
  }

  /** The headers on the wire after a start of burst without samples followed by
      a call with four, in packets of at most `max`, on a transport that always
      has a buffer. */
  method OpenedBurst(c: TxMetadata, md: TxMetadata, max: nat) returns (headers: seq<Header>)
    requires c.startOfBurst && 0 < max
    ensures |headers| == FragmentCount(4, max)
    ensures forall j | 0 <= j < |headers| ::
              headers[j] == FragmentAt(4, max, md, OpeningHeader(md, Some(c)), 1.0, j).header
  {
    hide FragmentAt, OpeningHeader;
    var h := new Handler(1, max, 1.0, k => true);
    var r := h.Send([[]], 0, c);
    r := h.Send([[1, 2, 3, 4]], 4, md);
    assert Carries(h.wires[0], [], [1, 2, 3, 4], 4, max, md, OpeningHeader(md, Some(c)), 1.0, h.nextSeq);
    assert r == 4;
    ReachedFacts(4, max, h.nextSeq);
    var wire := h.wires[0];
    headers := seq(|wire|, j requires 0 <= j < |wire| => wire[j].header);
  }

  /** A burst opened without samples, with a time, and continued by a call of
      two packets without one: the second packet goes back to time zero. */
  method CachedTimeLost() returns (headers: seq<Header>)
    ensures headers == [Header(true, 5.0, true, false), Header(true, 2.0, false, true)]
  {
    headers := OpenedBurst(TxMetadata(true, 5.0, true, false), TxMetadata(false, 0.0, false, true), 2);
  }

  /** The same continued by a call that brings its own time: that one counts, in
      every packet, and the flags of the first are still the cached ones. */
  method CachedTimeOverridden() returns (headers: seq<Header>)
    ensures headers == [Header(true, 7.0, true, false), Header(true, 9.0, false, true)]
  {
    headers := OpenedBurst(TxMetadata(false, 5.0, true, false), TxMetadata(true, 7.0, false, true), 2);
  }

  /** The same continued by a call of one packet that asks to close the burst: it
      stays open. */
  method CachedEndLost() returns (headers: seq<Header>)
    ensures headers == [Header(true, 5.0, true, false)]
  {
    headers := OpenedBurst(TxMetadata(true, 5.0, true, false), TxMetadata(false, 0.0, false, true), 4);
  }

  /** The same on a transport that misses the first request: the call sends
      nothing and yet uses the cached metadata up, so that its repetition neither
      opens the burst nor carries the time. */
  method CachedDropped() returns (first: nat, second: nat, headers: seq<Header>)
    ensures first == 0 && second == 4 && headers == [Header(false, 0.0, false, true)]
  {
    hide Carries, ChannelOk;
    var c, md := TxMetadata(true, 5.0, true, false), TxMetadata(false, 0.0, false, true);
    var h := new Handler(1, 4, 1.0, k => k != 0);
    WantingAll(h.held);
    first := h.Send([[]], 0, c);
    h.NotServed(0, 1, 0);
    first := h.Send([[1, 2, 3, 4]], 4, md);
    assert h.calls == 1 && Wanting(h.held) == 1;
    second := h.Send([[1, 2, 3, 4]], 4, md);
    var wire := h.wires[0];
    CarriesAll(wire, md);
    headers := seq(|wire|, j requires 0 <= j < |wire| => wire[j].header);
  }

  lemma CarriesAll(wire: seq<TxPacket>, md: TxMetadata)
    requires Carries(wire, [], [1, 2, 3, 4], 4, 4, md, HeaderOf(md), 1.0, 1)
    ensures |wire| == 1 && wire[0].header == HeaderOf(md)
  {
    assert wire[0 + 0].header == FragmentAt(4, 4, md, HeaderOf(md), 1.0, 0).header;
  }
}
