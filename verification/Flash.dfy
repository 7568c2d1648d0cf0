/** The SPI flash driver over a model of the device: a page program wraps inside
    its 256-byte page and can only clear bits, a sector erase sets them, both
    leave the device busy, and a busy device drops commands. */
module Flash {
  import Arith
  import opened Basics

  const PAGE: nat := 256
  const TWO24: nat := 0x100_0000

  type Byte = bv8

  /** Memory and sector sizes of the supported parts. */
  predicate Geometry(size: nat, sector: nat) {
    || (size == 0x40_0000 && sector == 0x1_0000)
    || (size == 0x80_0000 && sector == 0x1_0000)
    || (size == 0x100_0000 && sector == 0x4_0000)
  }

  /** Programming a cell clears bits. */
  function And(a: Byte, b: Byte): Byte {
    a & b
  }

  function Min(a: nat, b: nat): nat {
    if a < b then a else b
  }

  function RoundDown(x: nat, sector: nat): nat
    requires 0 < sector
  {
    x / sector * sector
  }

  // -------------------------------------------------------------------
  // Contents of the memory.
  // -------------------------------------------------------------------

  /** A plain write to memory that can only clear bits. */
  ghost function Programmed(m: seq<Byte>, addr: nat, buf: seq<Byte>): (r: seq<Byte>)
    ensures |r| == |m|
  {
    seq(|m|, k requires 0 <= k < |m| => if addr <= k < addr + |buf| then And(m[k], buf[k - addr]) else m[k])
  }

  /** How far cell `k` lies behind `addr` within its page. */
  function PageDistance(addr: nat, k: nat): nat {
    (k - addr) % PAGE
  }

  predicate SamePage(a: nat, b: nat) {
    a / PAGE == b / PAGE
  }

  /** What a page program does with up to 256 bytes shifted in from `addr` on. */
  ghost function PageWritten(m: seq<Byte>, addr: nat, data: seq<Byte>): (r: seq<Byte>)
    ensures |r| == |m|
  {
    seq(|m|, k requires 0 <= k < |m| =>
      if SamePage(k, addr) && PageDistance(addr, k) < |data| then And(m[k], data[PageDistance(addr, k)]) else m[k])
  }

  /** The next cell of the page, back to its start after its end. */
  function NextInPage(addr: nat): nat {
    if addr % PAGE == PAGE - 1 then addr - (PAGE - 1) else addr + 1
  }

  /** The cursor after `n` more bytes. */
  function Cursor(addr: nat, n: nat): nat {
    addr / PAGE * PAGE + (addr + n) % PAGE
  }

  lemma CursorFacts(addr: nat, n: nat)
    ensures SamePage(Cursor(addr, n), addr) && Cursor(addr, n + 1) == NextInPage(Cursor(addr, n))
    ensures Cursor(addr, 0) == addr
    ensures PageDistance(addr, Cursor(addr, n)) == n % PAGE
  {
    Arith.RemainderUnique(Cursor(addr, n), PAGE, addr / PAGE, (addr + n) % PAGE);
    assert (Cursor(addr, n) - addr) % PAGE == n % PAGE;
  }

  /** Shifting in one more byte extends the page program by it. */
  lemma PageWrittenStep(m: seq<Byte>, addr: nat, data: seq<Byte>, b: Byte)
    requires |data| < PAGE && Cursor(addr, |data|) < |m|
    ensures var done := PageWritten(m, addr, data);
            var c := Cursor(addr, |data|);
            done[c := And(done[c], b)] == PageWritten(m, addr, data + [b])
  {
    var done, c := PageWritten(m, addr, data), Cursor(addr, |data|);
    CursorFacts(addr, |data|);
    assert PageDistance(addr, c) == |data|;
    hide Cursor, PageDistance, SamePage, And;
    forall k | 0 <= k < |m| ensures done[c := And(done[c], b)][k] == PageWritten(m, addr, data + [b])[k] {
      if SamePage(k, addr) && PageDistance(addr, k) == |data| {
        SamePlace(addr, k, c);
      }
    }
  }

  lemma SamePlace(addr: nat, k: nat, c: nat)
    requires SamePage(k, addr) && SamePage(c, addr) && PageDistance(addr, k) == PageDistance(addr, c)
    ensures k == c
  {
    assert (k - c) % PAGE == 0;
  }

  /** The local buffer of a page program: filled with ones behind the data. */
  function Padded(buf: seq<Byte>): (r: seq<Byte>)
    requires |buf| <= PAGE
    ensures |r| == PAGE
  {
    buf + seq(PAGE - |buf|, _ => 0xff)
  }

  lemma ClearsNothing(b: Byte)
    ensures And(b, 0xff) == b && And(0xff, b) == b
  {
  }

  /** All 256 bytes are sent whatever the start, yet as long as the data itself
      stays in the page the effect is a plain write of the data. */
  lemma PageWriteIsPlain(m: seq<Byte>, addr: nat, buf: seq<Byte>)
    requires 0 < |buf| && addr % PAGE + |buf| <= PAGE
    ensures PageWritten(m, addr, Padded(buf)) == Programmed(m, addr, buf)
  {
    var data := Padded(buf);
    forall k | 0 <= k < |m| ensures PageWritten(m, addr, data)[k] == Programmed(m, addr, buf)[k] {
      if SamePage(k, addr) {
        var d := PageDistance(addr, k);
        if addr <= k < addr + |buf| {
          assert d == k - addr;
        } else {
          assert d >= |buf|;
          assert data[d] == 0xff;
          ClearsNothing(m[k]);
        }
      } else {
        OtherPage(addr, |buf|, k);
      }
    }
  }

  lemma OtherPage(addr: nat, n: nat, k: nat)
    requires addr % PAGE + n <= PAGE && k / PAGE != addr / PAGE
    ensures !(addr <= k < addr + n)
  {
  }

  lemma ProgrammedAppends(m: seq<Byte>, addr: nat, a: seq<Byte>, b: seq<Byte>)
    ensures Programmed(Programmed(m, addr, a), addr + |a|, b) == Programmed(m, addr, a + b)
  {
  }

  /** What an accepted range leaves in a memory of `size` cells. Up to the end of
      the memory it is a plain write. A range that runs on to address 2^32 is cut
      there: the piece that ends at it passes the check of the page command and
      lands on the last page, and the rest goes on at the start of the memory. */
  ghost function RangeWritten(m: seq<Byte>, addr: nat, buf: seq<Byte>): (r: seq<Byte>)
    requires addr < TWO32 && PAGE <= |m|
    ensures |r| == |m|
  {
    if addr + |buf| < TWO32 then Programmed(m, addr, buf)
    else
      var cut := TWO32 - addr;
      var n := Min(PAGE, cut);
      var below := Programmed(m, addr, buf[..cut]);
      Programmed(Programmed(below, |m| - n, buf[cut - n..cut]), 0, buf[cut..])
  }

  /** What one page command does to an address, by its own check. */
  ghost function PieceWritten(m: seq<Byte>, at: nat, piece: seq<Byte>, size: nat): (r: seq<Byte>)
    requires 0 < |piece| <= PAGE && 0 < size
    ensures |r| == |m|
  {
    if Wrap32(at + |piece|) <= size then PageWritten(m, at % TWO24 % size, Padded(piece)) else m
  }

  lemma RangeBelow(m: seq<Byte>, addr: nat, buf: seq<Byte>)
    requires addr < TWO32 && PAGE <= |m| && addr + |buf| < TWO32
    ensures RangeWritten(m, addr, buf) == Programmed(m, addr, buf)
  {
  }

  lemma RangeAcross(m: seq<Byte>, addr: nat, buf: seq<Byte>, cut: nat, n: nat)
    requires addr < TWO32 <= addr + |buf| && PAGE <= |m| && cut == TWO32 - addr && n == Min(PAGE, cut)
    ensures RangeWritten(m, addr, buf)
         == Programmed(Programmed(Programmed(m, addr, buf[..cut]), |m| - n, buf[cut - n..cut]), 0, buf[cut..])
  {
  }

  /** A piece that is accepted at device address `to` and stays in its page there
      is a plain write. */
  lemma PieceAccepted(m: seq<Byte>, at: nat, piece: seq<Byte>, size: nat, to: nat)
    requires 0 < |piece| <= PAGE && 0 < size && Wrap32(at + |piece|) <= size
    requires to == at % TWO24 % size && to % PAGE + |piece| <= PAGE
    ensures PieceWritten(m, at, piece, size) == Programmed(m, to, piece)
  {
    PageWriteIsPlain(m, to, piece);
  }

  /** An accepted range is a plain write, for all data and all contents, exactly
      when its end does not overflow 32 bits. */
  lemma PlainIff(addr: nat, n: nat, size: nat, sector: nat)
    requires Geometry(size, sector) && addr < TWO32 && n < TWO32 && Wrap32(addr + n) <= size
    ensures (forall m: seq<Byte>, buf: seq<Byte> | |m| == size && |buf| == n ::
               RangeWritten(m, addr, buf) == Programmed(m, addr, buf))
            <==> addr + n < TWO32
  {
    if addr + n >= TWO32 {
      var cut := TWO32 - addr;
      var w := Min(PAGE, cut);
      var m: seq<Byte> := seq(size, _ => 0xff);
      var buf: seq<Byte> := seq(n, k => if cut - w <= k < cut then 0 else 0xff);
      LastCellCleared(m, addr, buf, cut, w);
    }
  }

  lemma LastCellCleared(m: seq<Byte>, addr: nat, buf: seq<Byte>, cut: nat, w: nat)
    requires addr < TWO32 <= addr + |buf| && cut == TWO32 - addr && w == Min(PAGE, cut) && PAGE < |m| <= TWO24
    requires forall k | 0 <= k < |m| :: m[k] == 0xff
    requires forall k | 0 <= k < |buf| :: buf[k] == if cut - w <= k < cut then 0 else 0xff
    ensures RangeWritten(m, addr, buf)[|m| - 1] == 0 && Programmed(m, addr, buf)[|m| - 1] == 0xff
  {
    var last := |m| - 1;
    var below := Programmed(m, addr, buf[..cut]);
    var paged := Programmed(below, |m| - w, buf[cut - w..cut]);
    assert buf[cut - w..cut][w - 1] == 0;
    AndFacts(below[last]);
    assert paged[last] == And(below[last], 0);
  }

  lemma AndFacts(b: Byte)
    ensures And(b, 0) == 0 && And(0, b) == 0 && And(0xff, 0xff) == 0xff
  {
  }

  /** Cells `lo..hi` erased. */
  ghost function Erased(m: seq<Byte>, lo: nat, hi: nat): (r: seq<Byte>)
    ensures |r| == |m|
  {
    seq(|m|, k requires 0 <= k < |m| => if lo <= k < hi then 0xff else m[k])
  }

  /** Erased memory takes any data. */
  lemma ProgramAfterErase(m: seq<Byte>, lo: nat, hi: nat, addr: nat, buf: seq<Byte>)
    requires lo <= addr && addr + |buf| <= hi && addr + |buf| <= |m|
    ensures Programmed(Erased(m, lo, hi), addr, buf)[addr..addr + |buf|] == buf
  {
    forall k | 0 <= k < |buf| ensures Programmed(Erased(m, lo, hi), addr, buf)[addr + k] == buf[k] {
      ClearsNothing(buf[k]);
    }
  }

  // -------------------------------------------------------------------
  // Sectors.
  // -------------------------------------------------------------------

  predicate SectorSize(sector: nat) {
    sector == 0x1_0000 || sector == 0x4_0000
  }

  predicate Aligned(x: nat, sector: nat)
    requires 0 < sector
  {
    x % sector == 0
  }

  lemma RoundDownFacts(x: nat, sector: nat)
    requires SectorSize(sector)
    ensures RoundDown(x, sector) <= x < RoundDown(x, sector) + sector && Aligned(RoundDown(x, sector), sector)
    ensures Aligned(x, sector) ==> RoundDown(x, sector) == x
  {
    if sector == 0x1_0000 {
      Arith.MultipleDivides(x / 0x1_0000, 0x1_0000);
    } else {
      Arith.MultipleDivides(x / 0x4_0000, 0x4_0000);
    }
  }

  lemma NextSector(s: nat, last: nat, sector: nat)
    requires SectorSize(sector) && Aligned(s, sector) && Aligned(last, sector)
    ensures Aligned(s + sector, sector) && (s < last ==> s + sector <= last)
  {
    if sector == 0x1_0000 {
    } else {
    }
  }

  lemma SizeAligned(size: nat, sector: nat)
    requires Geometry(size, sector)
    ensures SectorSize(sector) && Aligned(size, sector) && sector <= size && Aligned(0, sector)
  {
  }

  /** On the bits the mask of `round_down` does what the arithmetic says. */
  lemma RoundDownMask(x: bv32)
    ensures x & (0 - 0x1_0000) == (x >> 16) << 16
    ensures x & (0 - 0x4_0000) == (x >> 18) << 18
  {
  }

  /** What erasing sectors `first`, `first + sector`, ... up to but excluding
      `end` leaves: a start address equal to the memory size passes the driver's
      guard and lands on sector zero. */
  ghost function SpanErased(m: seq<Byte>, first: nat, end: nat, size: nat, sector: nat): (r: seq<Byte>)
    ensures |r| == |m|
  {
    seq(|m|, k requires 0 <= k < |m| => if first <= k < end || (k < sector && first <= size < end) then 0xff else m[k])
  }

  /** What starting an erase at an aligned address does. */
  ghost function SectorStarted(m: seq<Byte>, s: nat, size: nat, sector: nat): seq<Byte> {
    if s < size then Erased(m, s, s + sector) else if s == size then Erased(m, 0, sector) else m
  }

  lemma SpanOfNothing(m: seq<Byte>, first: nat, size: nat, sector: nat)
    ensures SpanErased(m, first, first, size, sector) == m
  {
  }

  lemma SpanStep(m: seq<Byte>, first: nat, s: nat, size: nat, sector: nat)
    requires Geometry(size, sector) && |m| == size && first <= s && Aligned(s, sector)
    ensures var done := SpanErased(m, first, s, size, sector);
            SpanErased(m, first, s + sector, size, sector) == SectorStarted(done, s, size, sector)
  {
    SizeAligned(size, sector);
    NextSector(s, size, sector);
    if s > size { NextSector(size, s, sector); }
  }

  /** Inside the memory only the sectors that meet the range are erased; the
      stray erase happens exactly when the sectors asked for include the one
      that would start at the end of the memory, and sector zero is not among
      those that meet the range. */
  lemma StrayEraseIff(first: nat, last: nat, size: nat, sector: nat)
    requires Geometry(size, sector) && Aligned(first, sector) && Aligned(last, sector) && first <= last
    ensures (exists m: seq<Byte> | |m| == size ::
               SpanErased(m, first, last + sector, size, sector) != Erased(m, first, last + sector))
            <==> 0 < first <= size <= last
  {
    SizeAligned(size, sector);
    if 0 < first <= size <= last {
      var m := seq(size, _ => 0 as Byte);
      NextSector(0, first, sector);
      assert SpanErased(m, first, last + sector, size, sector)[0] == 0xff;
      assert Erased(m, first, last + sector)[0] == 0;
    } else {
      forall m: seq<Byte> | |m| == size
        ensures SpanErased(m, first, last + sector, size, sector) == Erased(m, first, last + sector)
      {
        if first <= size < last + sector {
          NextSector(last, size, sector);
          assert first == 0;
        }
      }
    }
  }

  lemma SpanInside(m: seq<Byte>, first: nat, last: nat, size: nat, sector: nat)
    requires Geometry(size, sector) && Aligned(last, sector) && last < size
    ensures SpanErased(m, first, last + sector, size, sector) == Erased(m, first, last + sector)
  {
    SizeAligned(size, sector);
    NextSector(last, size, sector);
  }

  /** The sectors that commands for `lo` up to but excluding `hi` land on, in order. */
  ghost function Landings(lo: nat, hi: nat, size: nat, sector: nat): seq<nat>
    requires 0 < sector
    decreases hi
  {
    if hi <= lo || hi < sector then []
    else Landings(lo, hi - sector, size, sector) + Landing(hi - sector, size)
  }

  ghost function Landing(s: nat, size: nat): seq<nat> {
    if s < size then [s] else if s == size then [0] else []
  }

  lemma LandingsStep(lo: nat, s: nat, size: nat, sector: nat)
    requires 0 < sector && lo <= s
    ensures Landings(lo, s + sector, size, sector) == Landings(lo, s, size, sector) + Landing(s, size)
  {
  }

  /** Inside the memory the sectors of the range are started in increasing order,
      each of them exactly once, and no other. */
  lemma {:induction false} LandingsOnce(lo: nat, hi: nat, size: nat, sector: nat)
    requires Geometry(size, sector) && Aligned(lo, sector) && Aligned(hi, sector) && hi <= size
    ensures var r := Landings(lo, hi, size, sector);
            && (forall i, j | 0 <= i < j < |r| :: r[i] < r[j])
            && (forall s: nat :: s in r <==> lo <= s < hi && Aligned(s, sector))
    decreases hi
  {
    SizeAligned(size, sector);
    if lo < hi {
      NextSector(0, hi, sector);
      var s := hi - sector;
      SectorBefore(lo, hi, sector);
      LandingsOnce(lo, s, size, sector);
      var r, init := Landings(lo, hi, size, sector), Landings(lo, s, size, sector);
      assert r == init + [s];
      assert forall i | 0 <= i < |init| :: init[i] in init;
      forall x: nat ensures x in r <==> lo <= x < hi && Aligned(x, sector) {
        if s < x < hi && Aligned(x, sector) {
          SectorBefore(x, hi, sector);
        }
        assert x in r <==> x in init || x == s;
      }
    }
  }

  lemma SectorBefore(x: nat, hi: nat, sector: nat)
    requires SectorSize(sector) && Aligned(x, sector) && Aligned(hi, sector) && x < hi
    ensures sector <= hi && x <= hi - sector && Aligned(hi - sector, sector)
  {
    NextSector(x, hi, sector);
    if sector == 0x1_0000 {
    } else {
    }
  }

  /** An asynchronous erase counts its addresses up in 32 bits. What it leaves
      once it has come from `first` to `current`, perhaps past 2^32. */
  ghost function JobErased(m: seq<Byte>, first: nat, current: nat, size: nat, sector: nat): (r: seq<Byte>)
    ensures |r| == |m|
  {
    if first <= current then SpanErased(m, first, current + sector, size, sector)
    else SpanErased(SpanErased(m, first, TWO32, size, sector), 0, current + sector, size, sector)
  }

  ghost function JobLandings(first: nat, current: nat, size: nat, sector: nat): seq<nat>
    requires 0 < sector
  {
    if first <= current then Landings(first, current + sector, size, sector)
    else Landings(first, TWO32, size, sector) + Landings(0, current + sector, size, sector)
  }

  /** `current` lies on the way from `first` to `last`. */
  ghost predicate OnTheWay(first: nat, current: nat, last: nat) {
    if first <= last then first <= current <= last else first <= current || current <= last
  }

  /** How far it is from `current` to `last`, counting up in 32 bits. */
  ghost function Distance(current: nat, last: nat): int {
    if current <= last then last - current else last + TWO32 - current
  }

  lemma JobStarts(m: seq<Byte>, first: nat, size: nat, sector: nat)
    requires Geometry(size, sector) && |m| == size && Aligned(first, sector)
    ensures JobErased(m, first, first, size, sector) == SectorStarted(m, first, size, sector)
    ensures JobLandings(first, first, size, sector) == Landing(first, size)
  {
    SpanOfNothing(m, first, size, sector);
    SpanStep(m, first, first, size, sector);
    LandingsStep(first, first, size, sector);
  }

  /** The next address continues the job, across 2^32 as well. */
  lemma JobStep(m: seq<Byte>, first: nat, current: nat, last: nat, size: nat, sector: nat)
    requires Geometry(size, sector) && |m| == size && first < TWO32 && current < TWO32 && last < TWO32
    requires Aligned(first, sector) && Aligned(current, sector) && Aligned(last, sector)
    requires OnTheWay(first, current, last) && current != last
    ensures var next := Wrap32(current + sector);
            && Aligned(next, sector) && OnTheWay(first, next, last)
            && 0 <= Distance(next, last) < Distance(current, last)
            && JobErased(m, first, next, size, sector)
            == SectorStarted(JobErased(m, first, current, size, sector), next, size, sector)
            && JobLandings(first, next, size, sector)
            == JobLandings(first, current, size, sector) + Landing(next, size)
  {
    hide SpanErased, SectorStarted, Landings, Landing;
    NextAddress(first, current, last, size, sector);
    var next := Wrap32(current + sector);
    if next == 0 {
      var before := SpanErased(m, first, TWO32, size, sector);
      SpanOfNothing(before, 0, size, sector);
      SpanStep(before, 0, 0, size, sector);
      LandingsStep(0, 0, size, sector);
      assert Landings(0, 0, size, sector) == [] by { NoLandings(0, size, sector); }
    } else if first <= current {
      SpanStep(m, first, next, size, sector);
      LandingsStep(first, next, size, sector);
    } else {
      SpanStep(SpanErased(m, first, TWO32, size, sector), 0, next, size, sector);
      LandingsStep(0, next, size, sector);
    }
  }

  lemma NoLandings(lo: nat, size: nat, sector: nat)
    requires 0 < sector
    ensures Landings(lo, lo, size, sector) == []
  {
  }

  lemma NextAddress(first: nat, current: nat, last: nat, size: nat, sector: nat)
    requires Geometry(size, sector) && first < TWO32 && current < TWO32 && last < TWO32
    requires Aligned(first, sector) && Aligned(current, sector) && Aligned(last, sector)
    requires OnTheWay(first, current, last) && current != last
    ensures var next := Wrap32(current + sector);
            && Aligned(next, sector) && OnTheWay(first, next, last)
            && 0 <= Distance(next, last) < Distance(current, last)
            && (next == 0 <==> current + sector == TWO32) && (next != 0 ==> next == current + sector)
            && (next == 0 ==> first <= current && 0 < first)
            && (first <= current && next != 0 ==> first <= next)
            && (current < first ==> next != 0 && next < first)
  {
    SizeAligned(size, sector);
    NextSector(current, TWO32, sector);
    NextSector(current, last, sector);
    NextSector(current, first, sector);
  }

  /** An accepted range that overflows 32 bits and does not end at 2^32 erases,
      where it starts behind the memory, the sectors from zero to its wrapped
      end, and otherwise those, sector zero, and all from its start on. */
  lemma WrappedJob(m: seq<Byte>, first: nat, last: nat, size: nat, sector: nat)
    requires Geometry(size, sector) && |m| == size && last < first && Aligned(last, sector)
    ensures size < first ==> JobErased(m, first, last, size, sector) == Erased(m, 0, last + sector)
    ensures first <= size < TWO32 && last < size ==>
              JobErased(m, first, last, size, sector) == Erased(Erased(m, first, size), 0, last + sector)
  {
    SizeAligned(size, sector);
    if last < size {
      NextSector(last, size, sector);
    }
  }

  // -------------------------------------------------------------------
  // Device and driver.
  // -------------------------------------------------------------------

  /** The progress of an asynchronous erase. */
  class EraseJob {
    var first: nat
    var last: nat
    var current: nat

    constructor ()
      ensures first == last == current == 0
    {
      first, last, current := 0, 0, 0;
    }
  }

  class Flash {
    const size: nat
    const sector: nat
    /** For how many status reads the device stays busy after its k-th operation. */
    const duration: nat -> nat
    /** What a busy device puts on the data line. */
    const noise: nat -> Byte

    // the device
    var mem: seq<Byte>
    var busy: nat
    var writeEnabled: bool
    var shifting: bool
    var cursor: nat
    var ops: nat
    /** Commands the device ignored because it was busy or write-disabled. */
    var dropped: nat
    /** The sectors erased so far, in order. */
    var erases: seq<nat>

    ghost predicate Valid()
      reads this
    {
      Geometry(size, sector) && |mem| == size
    }

    constructor (size: nat, sector: nat, mem: seq<Byte>, duration: nat -> nat, noise: nat -> Byte)
      requires Geometry(size, sector) && |mem| == size
      ensures Valid() && this.mem == mem && this.size == size && this.sector == sector && busy == dropped == 0
      ensures this.duration == duration && this.noise == noise && !writeEnabled && !shifting && erases == []
    {
      this.size, this.sector, this.mem, this.duration, this.noise := size, sector, mem, duration, noise;
      busy, writeEnabled, shifting, cursor, ops, dropped, erases := 0, false, false, 0, 0, 0, [];
    }

    /** Reads the status register; time passes on the device. */
    method Done() returns (done: bool)
      modifies `busy
      ensures done <==> old(busy) == 0
      ensures busy == if old(busy) > 0 then old(busy) - 1 else 0
    {
      done := busy == 0;
      if busy > 0 {
        busy := busy - 1;
      }
    }

    method Wait()
      modifies `busy
      ensures busy == 0
    {
      var done := Done();
      while !done
        invariant done ==> busy == 0
        decreases busy, !done
      {
        done := Done();
      }
    }

    method WriteEnable()
      modifies `writeEnabled, `dropped
      ensures old(busy) == 0 ==> writeEnabled && dropped == old(dropped)
      ensures old(busy) > 0 ==> writeEnabled == old(writeEnabled) && dropped == old(dropped) + 1
    {
      if busy > 0 {
        dropped := dropped + 1;
      } else {
        writeEnabled := true;
      }
    }

    method DeviceErase(addr: nat)
      requires Valid()
      modifies `mem, `busy, `writeEnabled, `ops, `dropped, `erases
      ensures Valid()
      ensures old(busy == 0 && writeEnabled) ==>
                var s := RoundDown(addr % size, sector);
                mem == Erased(old(mem), s, s + sector) && erases == old(erases) + [s] && dropped == old(dropped)
                && busy == duration(old(ops)) && ops == old(ops) + 1 && !writeEnabled
      ensures !old(busy == 0 && writeEnabled) ==>
                mem == old(mem) && erases == old(erases) && dropped == old(dropped) + 1 && busy == old(busy)
    {
      if busy > 0 || !writeEnabled {
        dropped := dropped + 1;
      } else {
        var s := RoundDown(addr % size, sector);
        mem := seq(size, k requires 0 <= k < size && |mem| == size reads this =>
          if s <= k < s + sector then 0xff else mem[k]);
        erases := erases + [s];
        busy, ops, writeEnabled := duration(ops), ops + 1, false;
      }
    }

    /** Starts a page program at a device address. */
    method Select(addr: nat)
      requires Valid()
      modifies `shifting, `cursor, `dropped
      ensures Valid()
      ensures busy == 0 && writeEnabled ==> shifting && cursor == addr % size && dropped == old(dropped)
      ensures !(busy == 0 && writeEnabled) ==> !shifting && dropped == old(dropped) + 1
    {
      shifting := busy == 0 && writeEnabled;
      if shifting {
        cursor := addr % size;
      } else {
        dropped := dropped + 1;
      }
    }

    method ShiftIn(b: Byte)
      requires Valid() && shifting && cursor < size
      modifies `mem, `cursor
      ensures Valid() && mem == old(mem)[old(cursor) := And(old(mem[cursor]), b)] && cursor == NextInPage(old(cursor))
    {
      mem := mem[cursor := And(mem[cursor], b)];
      cursor := NextInPage(cursor);
    }

    method Deselect()
      requires shifting
      modifies `shifting, `busy, `ops, `writeEnabled
      ensures !shifting && !writeEnabled && busy == duration(old(ops)) && ops == old(ops) + 1
    {
      busy, ops, writeEnabled, shifting := duration(ops), ops + 1, false, false;
    }

    // the driver

    /** Starts erasing the sector at `addr`, once the device is idle. */
    method EraseSectorStart(addr: nat)
      requires Valid() && addr < TWO32
      modifies `mem, `busy, `writeEnabled, `ops, `dropped, `erases
      ensures Valid() && dropped == old(dropped)
      ensures mem == if addr <= size then SectorStarted(old(mem), RoundDown(addr, sector), size, sector) else old(mem)
      ensures addr < size ==> erases == old(erases) + [RoundDown(addr, sector)]
      ensures addr == size ==> erases == old(erases) + [0]
      ensures addr > size ==> erases == old(erases)
    {
      SizeAligned(size, sector);
      RoundDownFacts(addr, sector);
      if addr > size {
        return;
      }
      Wait();
      WriteEnable();
      assert addr % TWO24 % size == if addr == size then 0 else addr by { SizeCases(addr); }
      RoundDownFacts(addr % TWO24 % size, sector);
      DeviceErase(addr % TWO24);
    }

    lemma SizeCases(addr: nat)
      requires Geometry(size, sector) && addr <= size
      ensures addr % TWO24 % size == if addr == size then 0 else addr
    {
    }

    /** Sends sixteen bytes of the local buffer. */
    method Transfer(data: seq<Byte>, i: nat, ghost before: seq<Byte>, ghost addr: nat)
      requires Valid() && shifting && |before| == size && |data| == PAGE && i < 16
      requires addr < size
      requires mem == PageWritten(before, addr, data[..16 * i]) && cursor == Cursor(addr, 16 * i)
      modifies `mem, `cursor
      ensures Valid() && mem == PageWritten(before, addr, data[..16 * i + 16]) && cursor == Cursor(addr, 16 * i + 16)
    {
      for j := 0 to 16
        invariant Valid() && mem == PageWritten(before, addr, data[..16 * i + j]) && cursor == Cursor(addr, 16 * i + j)
      {
        CursorFacts(addr, 16 * i + j);
        CursorInside(addr, 16 * i + j);
        PageWrittenStep(before, addr, data[..16 * i + j], data[16 * i + j]);
        assert data[..16 * i + j] + [data[16 * i + j]] == data[..16 * i + j + 1];
        ShiftIn(data[16 * i + j]);
      }
    }

    lemma CursorInside(addr: nat, k: nat)
      requires Geometry(size, sector) && addr < size
      ensures Cursor(addr, k) < size
    {
    }

    /** Programs up to a page from `addr` on; refuses empty or oversized data
        and a range behind the end of the device. */
    method PageProgramStart(addr: nat, buf: seq<Byte>) returns (ok: bool)
      requires Valid() && addr < TWO32 && |buf| < TWO32
      modifies `mem, `busy, `writeEnabled, `shifting, `cursor, `ops, `dropped
      ensures Valid() && dropped == old(dropped)
      ensures ok <==> 0 < |buf| <= PAGE && Wrap32(addr + |buf|) <= size
      ensures !ok ==> mem == old(mem)
      ensures ok ==> mem == PageWritten(old(mem), addr % TWO24 % size, Padded(buf))
    {
      if |buf| == 0 || |buf| > PAGE || Wrap32(addr + |buf|) > size {
        return false;
      }
      var data := Padded(buf);
      Wait();
      WriteEnable();
      Select(addr % TWO24);
      ghost var start := addr % TWO24 % size;
      CursorFacts(start, 0);
      assert mem == PageWritten(mem, start, data[..0]);
      for i := 0 to 16
        modifies `mem, `cursor
        invariant Valid() && mem == PageWritten(old(mem), start, data[..16 * i]) && cursor == Cursor(start, 16 * i)
      {
        Transfer(data, i, old(mem), start);
      }
      assert data[..256] == data;
      Deselect();
      ok := true;
    }

    /** Erases every sector that meets the range, and waits. A range whose end
        overflows 32 bits erases nothing, or one sector if it ends in the sector
        it starts in. A range that ends in the topmost sector of the address space
        is excluded: the loop does not end, as `EraseNeverEnds` shows. */
    method Erase(addr: nat, nbytes: nat)
      requires Valid() && addr < TWO32 && nbytes < TWO32
      requires nbytes == 0 || Wrap32(addr + nbytes - 1) < TWO32 - sector
      modifies `mem, `busy, `writeEnabled, `ops, `dropped, `erases
      ensures Valid() && dropped == old(dropped)
      ensures nbytes == 0 ==> mem == old(mem) && busy == old(busy)
      ensures nbytes > 0 ==>
                var first, last := RoundDown(addr, sector), RoundDown(Wrap32(addr + nbytes - 1), sector);
                && busy == 0
                && mem == if first <= last then SpanErased(old(mem), first, last + sector, size, sector) else old(mem)
    {
      hide SpanErased, Erased, RoundDown, Aligned, Geometry, Wrap32;
      if nbytes == 0 {
        return;
      }
      SizeAligned(size, sector);
      var end := Wrap32(addr + nbytes - 1);
      RoundDownFacts(addr, sector);
      RoundDownFacts(end, sector);
      var first, last := RoundDown(addr, sector), RoundDown(end, sector);
      var s := first;
      SpanOfNothing(mem, first, size, sector);
      while s <= last
        invariant Valid() && dropped == old(dropped)
        invariant first <= s && Aligned(s, sector) && (first <= last ==> s <= last + sector)
        invariant mem == SpanErased(old(mem), first, s, size, sector)
        invariant last < first ==> s == first
        decreases last + sector - s
      {
        SpanStep(old(mem), first, s, size, sector);
        RoundDownFacts(s, sector);
        NextSector(s, last, sector);
        EraseSectorStart(s);
        s := s + sector;
      }
      NextSector(last, s, sector);
      Wait();
    }

    /** Programs a range of any size, page by page. For a range whose end does
        not overflow 32 bits this is a plain write and nothing outside changes. */
    method Program(addr: nat, buf: seq<Byte>) returns (ok: bool)
      requires Valid() && addr < TWO32 && |buf| < TWO32
      modifies `mem, `busy, `writeEnabled, `shifting, `cursor, `ops, `dropped
      ensures Valid() && dropped == old(dropped)
      ensures ok <==> Wrap32(addr + |buf|) <= size
      ensures mem == if ok then RangeWritten(old(mem), addr, buf) else old(mem)
      ensures ok && addr + |buf| < TWO32 ==> addr + |buf| <= size && mem == Programmed(old(mem), addr, buf)
      ensures ok && |buf| > 0 ==> busy == 0
    {
      hide RangeWritten, Programmed, Wrap32;
      if Wrap32(addr + |buf|) > size {
        return false;
      }
      NothingWritten(mem, addr, buf);
      if addr + |buf| < TWO32 {
        RangeBelow(mem, addr, buf);
      }
      if |buf| == 0 {
        return true;
      }
      var done: nat, at: nat := 0, addr;
      var r := addr % PAGE;
      if r != 0 {
        var n := Min(PAGE - r, |buf|);
        NextPiece(addr, 0, n, |buf|);
        ProgramPiece(at, buf, 0, n, addr, mem);
        at, done := Wrap32(at + n), n;
      }
      while done < |buf|
        invariant Valid() && dropped == old(dropped) && done <= |buf| && at == Wrap32(addr + done)
        invariant mem == RangeWritten(old(mem), addr, buf[..done])
        invariant done < |buf| ==> (addr + done) % PAGE == 0
      {
        var n := Min(PAGE, |buf| - done);
        NextPiece(addr, done, n, |buf|);
        ProgramPiece(at, buf, done, n, addr, old(mem));
        at, done := Wrap32(at + n), done + n;
      }
      assert buf[..|buf|] == buf;
      Wait();
      ok := true;
    }

    /** The next piece starts where the last one ended, at a page boundary unless
        it was the last. */
    lemma NextPiece(addr: nat, done: nat, n: nat, total: nat)
      requires done + n <= total && (addr + done) % PAGE + n <= PAGE
      requires n == PAGE - (addr + done) % PAGE || done + n == total
      ensures done + n < total ==> (addr + (done + n)) % PAGE == 0
      ensures Wrap32(Wrap32(addr + done) + n) == Wrap32(addr + (done + n))
    {
      Wrap32Adds(addr + done, n);
    }

    lemma NothingWritten(m: seq<Byte>, addr: nat, buf: seq<Byte>)
      requires Geometry(size, sector) && |m| == size && addr < TWO32
      ensures RangeWritten(m, addr, buf[..0]) == m && (|buf| == 0 ==> RangeWritten(m, addr, buf) == m)
    {
      assert buf[..0] == [];
    }

    /** Programs the next piece of a range, which lies in one page. */
    method ProgramPiece(at: nat, buf: seq<Byte>, done: nat, n: nat, ghost addr: nat, ghost m: seq<Byte>)
      requires Valid() && |m| == size && addr < TWO32 && |buf| < TWO32 && Wrap32(addr + |buf|) <= size
      requires 0 < n <= PAGE && done + n <= |buf| && (addr + done) % PAGE + n <= PAGE
      requires done == 0 || (addr + done) % PAGE == 0
      requires at == Wrap32(addr + done) && mem == RangeWritten(m, addr, buf[..done])
      modifies `mem, `busy, `writeEnabled, `shifting, `cursor, `ops, `dropped
      ensures Valid() && dropped == old(dropped)
      ensures mem == RangeWritten(m, addr, buf[..done + n])
    {
      hide RangeWritten, PageWritten, Padded, Wrap32;
      PieceContinues(m, addr, buf, done, n);
      var _ := PageProgramStart(at, buf[done..done + n]);
    }

    /** Each page command, by its own check, continues the range. */
    lemma PieceContinues(m: seq<Byte>, addr: nat, buf: seq<Byte>, done: nat, n: nat)
      requires Geometry(size, sector) && |m| == size && addr < TWO32 && |buf| < TWO32 && Wrap32(addr + |buf|) <= size
      requires 0 < n <= PAGE && done + n <= |buf| && (addr + done) % PAGE + n <= PAGE
      requires done == 0 || (addr + done) % PAGE == 0
      ensures PieceWritten(RangeWritten(m, addr, buf[..done]), Wrap32(addr + done), buf[done..done + n], size)
           == RangeWritten(m, addr, buf[..done + n])
    {
      hide RangeWritten, PieceWritten, Geometry;
      if addr + done + n < TWO32 {
        PieceBelow(m, addr, buf, done, n);
      } else if addr + done < TWO32 {
        PieceAtTop(m, addr, buf, done, n);
      } else {
        PieceBeyond(m, addr, buf, done, n);
      }
    }

    /** Below 2^32 a piece inside the memory is written and one behind it refused. */
    lemma PieceBelow(m: seq<Byte>, addr: nat, buf: seq<Byte>, done: nat, n: nat)
      requires Geometry(size, sector) && |m| == size && addr < TWO32 && addr + done + n < TWO32
      requires 0 < n <= PAGE && done + n <= |buf| && (addr + done) % PAGE + n <= PAGE
      ensures PieceWritten(RangeWritten(m, addr, buf[..done]), Wrap32(addr + done), buf[done..done + n], size)
           == RangeWritten(m, addr, buf[..done + n])
    {
      hide RangeWritten, PieceWritten, Programmed;
      var before, piece := buf[..done], buf[done..done + n];
      var m1 := Programmed(m, addr, before);
      RangeBelow(m, addr, before);
      RangeBelow(m, addr, buf[..done + n]);
      assert before + piece == buf[..done + n];
      ProgrammedAppends(m, addr, before, piece);
      InOrOut(addr + done, n);
      if addr + done + n <= size {
        SizeCases(addr + done);
        PieceAccepted(m1, addr + done, piece, size, addr + done);
      } else {
        WrittenBehind(m1, addr + done, piece);
        PieceRefused(m1, addr + done, piece);
      }
    }

    lemma PieceRefused(m: seq<Byte>, at: nat, piece: seq<Byte>)
      requires 0 < |piece| <= PAGE && 0 < size && size < at + |piece| < TWO32
      ensures PieceWritten(m, at, piece, size) == m
    {
    }

    /** The piece that ends at 2^32 lands on the last page. */
    lemma PieceAtTop(m: seq<Byte>, addr: nat, buf: seq<Byte>, done: nat, n: nat)
      requires Geometry(size, sector) && |m| == size && addr < TWO32 && addr + done < TWO32 <= addr + done + n
      requires 0 < n <= PAGE && done + n <= |buf| && (addr + done) % PAGE + n <= PAGE
      requires done == 0 || (addr + done) % PAGE == 0
      ensures PieceWritten(RangeWritten(m, addr, buf[..done]), Wrap32(addr + done), buf[done..done + n], size)
           == RangeWritten(m, addr, buf[..done + n])
    {
      hide RangeWritten, PieceWritten, Programmed, Wrap32;
      var before, piece, all := buf[..done], buf[done..done + n], buf[..done + n];
      var m1 := Programmed(m, addr, before);
      TopPiece(addr, done, n);
      RangeBelow(m, addr, before);
      RangeAcross(m, addr, all, done + n, n);
      assert before + piece == all == all[..done + n] && all[done..done + n] == piece && all[done + n..] == [];
      ProgrammedAppends(m, addr, before, piece);
      WrittenBehind(m1, addr + done, piece);
      PieceAccepted(m1, TWO32 - n, piece, size, size - n);
      NothingProgrammed(Programmed(m1, size - n, piece));
    }

    lemma NothingProgrammed(m: seq<Byte>)
      ensures Programmed(m, 0, []) == m
    {
    }

    /** Behind 2^32 the range goes on at the start of the memory. */
    lemma PieceBeyond(m: seq<Byte>, addr: nat, buf: seq<Byte>, done: nat, n: nat)
      requires Geometry(size, sector) && |m| == size && addr < TWO32 <= addr + done
      requires |buf| < TWO32 && addr + |buf| - TWO32 <= size
      requires 0 < n <= PAGE && done + n <= |buf| && (addr + done) % PAGE + n <= PAGE
      ensures PieceWritten(RangeWritten(m, addr, buf[..done]), Wrap32(addr + done), buf[done..done + n], size)
           == RangeWritten(m, addr, buf[..done + n])
    {
      hide RangeWritten, PieceWritten, Programmed, Wrap32;
      var cut, at := TWO32 - addr, addr + done - TWO32;
      var w := Min(PAGE, cut);
      var before, after, piece := buf[..done], buf[..done + n], buf[done..done + n];
      SizeBelow32();
      BeyondAddress(addr, done, n);
      RangeAcross(m, addr, before, cut, w);
      RangeAcross(m, addr, after, cut, w);
      var m2 := Programmed(Programmed(m, addr, buf[..cut]), size - w, buf[cut - w..cut]);
      assert before[..cut] == after[..cut] == buf[..cut];
      assert before[cut - w..cut] == after[cut - w..cut] == buf[cut - w..cut];
      assert before[cut..] + piece == after[cut..];
      ProgrammedAppends(m2, 0, before[cut..], piece);
      SizeCases(at);
      PieceAccepted(Programmed(m2, 0, before[cut..]), at, piece, size, at);
    }

    lemma InOrOut(at: nat, n: nat)
      requires Geometry(size, sector) && at % PAGE + n <= PAGE && 0 < n
      ensures at + n <= size || size <= at
    {
    }

    lemma WrittenBehind(m: seq<Byte>, at: nat, piece: seq<Byte>)
      requires |m| <= at
      ensures Programmed(m, at, piece) == m
    {
    }

    lemma TopPiece(addr: nat, done: nat, n: nat)
      requires Geometry(size, sector) && addr < TWO32 && addr + done < TWO32 <= addr + done + n
      requires 0 < n <= PAGE && (addr + done) % PAGE + n <= PAGE && (done == 0 || (addr + done) % PAGE == 0)
      ensures addr + done + n == TWO32 && n == Min(PAGE, TWO32 - addr) && size <= addr + done
      ensures Wrap32(addr + done) == TWO32 - n && Wrap32(TWO32 - n + n) == 0
      ensures (TWO32 - n) % TWO24 % size == size - n && (size - n) % PAGE + n <= PAGE
    {
    }

    lemma BeyondAddress(addr: nat, done: nat, n: nat)
      requires addr < TWO32 <= addr + done && addr + done - TWO32 + n < TWO32
      requires 0 < n <= PAGE && (addr + done) % PAGE + n <= PAGE
      ensures Wrap32(addr + done) == addr + done - TWO32
      ensures Wrap32(addr + done - TWO32 + n) == addr + done - TWO32 + n && (addr + done - TWO32) % PAGE + n <= PAGE
    {
    }

    /** The state of an asynchronous erase: commands for the addresses from the
        first to the current one have been given, in order and once each. */
    ghost predicate JobOk(job: EraseJob, m: seq<Byte>, log: seq<nat>)
      reads this, job
    {
      && Valid() && |m| == size
      && job.first < TWO32 && job.current < TWO32 && job.last < TWO32
      && Aligned(job.first, sector) && Aligned(job.current, sector) && Aligned(job.last, sector)
      && OnTheWay(job.first, job.current, job.last)
      && mem == JobErased(m, job.first, job.current, size, sector)
      && erases == log + JobLandings(job.first, job.current, size, sector)
    }

    /** Begins erasing the range. An empty or refused one starts nothing. */
    method AsyncEraseStart(job: EraseJob, addr: nat, nbytes: nat)
      requires Valid() && addr < TWO32 && nbytes < TWO32
      modifies `mem, `busy, `writeEnabled, `ops, `dropped, `erases, job
      ensures Valid() && dropped == old(dropped)
      ensures nbytes == 0 || Wrap32(addr + nbytes) > size ==>
                mem == old(mem) && erases == old(erases) && job.first == job.last == job.current == 0
      ensures 0 < nbytes && Wrap32(addr + nbytes) <= size ==>
                && job.first == job.current == RoundDown(addr, sector)
                && job.last == RoundDown(Wrap32(addr + nbytes - 1), sector)
                && JobOk(job, old(mem), old(erases))
    {
      if nbytes == 0 || Wrap32(addr + nbytes) > size {
        job.first, job.last, job.current := 0, 0, 0;
        return;
      }
      SizeAligned(size, sector);
      hide RoundDown, Geometry, Aligned, JobErased, JobLandings, Landing, SectorStarted;
      var end := Wrap32(addr + nbytes - 1);
      RoundDownFacts(addr, sector);
      RoundDownFacts(end, sector);
      var first, last := RoundDown(addr, sector), RoundDown(end, sector);
      job.first, job.last, job.current := first, last, first;
      JobStarts(mem, first, size, sector);
      StartAddress(first);
      EraseSectorStart(first);
    }

    lemma StartAddress(s: nat)
      requires Valid() && Aligned(s, sector)
      ensures RoundDown(s, sector) == s && (size < s ==> SectorStarted(mem, s, size, sector) == mem)
      ensures Landing(s, size) == if s < size then [s] else if s == size then [0] else []
    {
      SizeAligned(size, sector);
      RoundDownFacts(s, sector);
    }

    /** One poll: nothing while the device is busy; otherwise done, or on to the
        next address, in 32 bits. No command is ever given to a busy device. */
    method AsyncErasePoll(job: EraseJob, ghost m: seq<Byte>, ghost log: seq<nat>) returns (done: bool)
      requires Valid()
      modifies `mem, `busy, `writeEnabled, `ops, `dropped, `erases, job`current
      ensures Valid() && dropped == old(dropped)
      ensures done <==> old(busy == 0 && job.current == job.last)
      ensures old(busy > 0 || job.current == job.last) ==>
                && mem == old(mem) && erases == old(erases) && job.current == old(job.current)
                && busy == if old(busy) > 0 then old(busy) - 1 else 0
      ensures old(busy == 0 && job.current != job.last) ==> job.current == old(Wrap32(job.current + sector))
      ensures old(JobOk(job, m, log)) ==> JobOk(job, m, log)
    {
      hide Geometry, Aligned, RoundDown, SectorStarted, JobErased, JobLandings, Landing, OnTheWay;
      var idle := Done();
      if !idle {
        return false;
      }
      if job.current == job.last {
        return true;
      }
      if JobOk(job, m, log) {
        JobStep(m, job.first, job.current, job.last, size, sector);
        StartAddress(Wrap32(job.current + sector));
      }
      job.current := Wrap32(job.current + sector);
      EraseSectorStart(job.current);
      done := false;
    }

    /** A whole asynchronous erase, under any pattern of busy polls, ends. Inside
        the device it has exactly the effect of the synchronous one. */
    method AsyncErase(addr: nat, nbytes: nat)
      requires Valid() && addr < TWO32 && nbytes < TWO32
      modifies `mem, `busy, `writeEnabled, `ops, `dropped, `erases
      ensures Valid() && busy == 0 && dropped == old(dropped)
      ensures nbytes == 0 || Wrap32(addr + nbytes) > size ==> mem == old(mem) && erases == old(erases)
      ensures 0 < nbytes && Wrap32(addr + nbytes) <= size ==>
                var first, last := RoundDown(addr, sector), RoundDown(Wrap32(addr + nbytes - 1), sector);
                && mem == JobErased(old(mem), first, last, size, sector)
                && erases == old(erases) + JobLandings(first, last, size, sector)
      ensures 0 < nbytes && addr + nbytes <= size ==>
                mem == SpanErased(old(mem), RoundDown(addr, sector), RoundDown(addr + nbytes - 1, sector) + sector,
                                  size, sector)
    {
      hide Geometry, RoundDown, SpanErased, JobLandings, Aligned;
      var job := new EraseJob();
      AsyncEraseStart(job, addr, nbytes);
      InsideInOrder(addr, nbytes);
      ghost var started := 0 < nbytes && Wrap32(addr + nbytes) <= size;
      ghost var first, last := job.first, job.last;
      var done := false;
      while !done
        invariant Valid() && dropped == old(dropped) && job.first == first && job.last == last
        invariant started ==> JobOk(job, old(mem), old(erases))
        invariant !started ==> mem == old(mem) && erases == old(erases) && job.current == last
        invariant done ==> busy == 0 && job.current == last
        decreases if job.current == last then 0 else Distance(job.current, last), busy, !done
      {
        if started && job.current != last {
          JobStep(old(mem), first, job.current, last, size, sector);
        }
        done := AsyncErasePoll(job, old(mem), old(erases));
      }
    }

    lemma InsideInOrder(addr: nat, nbytes: nat)
      requires Geometry(size, sector)
      ensures 0 < nbytes && addr + nbytes <= size ==>
                && Wrap32(addr + nbytes) <= size && Wrap32(addr + nbytes - 1) == addr + nbytes - 1
                && RoundDown(addr, sector) <= RoundDown(addr + nbytes - 1, sector)
    {
      if 0 < nbytes && addr + nbytes <= size {
        SizeAligned(size, sector);
        var first, last := RoundDown(addr, sector), RoundDown(addr + nbytes - 1, sector);
        RoundDownFacts(addr, sector);
        RoundDownFacts(addr + nbytes - 1, sector);
        assert first <= last by {
          hide RoundDown;
          NextSector(last, first, sector);
        }
      }
    }

    /** The byte the device streams at position `i` of a read. */
    function StreamByte(addr: nat, i: nat): Byte
      requires Valid()
      reads this
    {
      if busy == 0 then mem[(addr % TWO24 + i) % size] else noise(i)
    }

    /** Reads in chunks of sixteen bytes until the buffer is full. */
    method Read(addr: nat, nbytes: nat, dst: array<Byte>)
      requires Valid() && nbytes <= dst.Length
      modifies dst
      ensures forall i | 0 <= i < nbytes :: dst[i] == StreamByte(addr, i)
      ensures forall i | nbytes <= i < dst.Length :: dst[i] == old(dst[i])
      ensures busy == 0 && addr + nbytes <= size ==> dst[..nbytes] == mem[addr..addr + nbytes]
    {
      var n: nat := 0;
      while n < nbytes
        invariant n <= nbytes
        invariant forall i | 0 <= i < n :: dst[i] == StreamByte(addr, i)
        invariant forall i | n <= i < dst.Length :: dst[i] == old(dst[i])
      {
        var w := seq(16, i requires 0 <= i && Valid() reads this => StreamByte(addr, n + i));
        var m := Min(nbytes - n, 16);
        for i := 0 to m
          invariant forall j | 0 <= j < n + i :: dst[j] == StreamByte(addr, j)
          invariant forall j | n + i <= j < dst.Length :: dst[j] == old(dst[j])
        {
          dst[n + i] := w[i];
        }
        n := n + m;
      }
      if busy == 0 && addr + nbytes <= size {
        forall i | 0 <= i < nbytes ensures dst[..nbytes][i] == mem[addr..addr + nbytes][i] {
          StreamInside(addr, i);
        }
      }
    }

    lemma StreamInside(addr: nat, i: nat)
      requires Valid() && busy == 0 && addr + i < size
      ensures StreamByte(addr, i) == mem[addr + i]
    {
    }

    /** Erases a range inside the device and programs it. */
    method Replace(addr: nat, buf: seq<Byte>)
      requires Valid() && 0 < |buf| && addr + |buf| <= size
      modifies this
      ensures Valid() && dropped == old(dropped) && busy == 0
      ensures var first, last := RoundDown(addr, sector), RoundDown(addr + |buf| - 1, sector);
              mem == Programmed(Erased(old(mem), first, last + sector), addr, buf)
    {
      hide RoundDown, Aligned, SpanErased, Programmed, RangeWritten, Erased, Geometry, JobErased, JobLandings;
      hide Wrap32;
      SizeAligned(size, sector);
      ghost var last := RoundDown(addr + |buf| - 1, sector);
      RoundDownFacts(addr + |buf| - 1, sector);
      SpanInside(mem, RoundDown(addr, sector), last, size, sector);
      SizeBelow32();
      AsyncErase(addr, |buf|);
      var _ := Program(addr, buf);
    }

    /** Erase, program and read give the buffer back, for every range inside the
        device. */
    method Rewrite(addr: nat, buf: seq<Byte>) returns (back: array<Byte>)
      requires Valid() && 0 < |buf| && addr + |buf| <= size
      modifies this
      ensures Valid() && dropped == old(dropped)
      ensures back[..] == buf
      ensures var first, last := RoundDown(addr, sector), RoundDown(addr + |buf| - 1, sector);
              mem == Programmed(Erased(old(mem), first, last + sector), addr, buf)
    {
      hide RoundDown, Aligned, Programmed, Erased, Geometry, StreamByte;
      SizeAligned(size, sector);
      ghost var first, last := RoundDown(addr, sector), RoundDown(addr + |buf| - 1, sector);
      RoundDownFacts(addr, sector);
      RoundDownFacts(addr + |buf| - 1, sector);
      ProgramAfterErase(mem, first, last + sector, addr, buf);
      Replace(addr, buf);
      back := new Byte[|buf|];
      Read(addr, |buf|, back);
      assert back[..] == back[..|buf|];
    }

    lemma SizeBelow32()
      requires Geometry(size, sector)
      ensures size < TWO32
    {
    }
  }

  /** Such a rewrite leaves everything outside the erased sectors alone. */
  lemma RewriteStaysInside(m: seq<Byte>, lo: nat, hi: nat, addr: nat, buf: seq<Byte>, k: nat)
    requires lo <= addr && addr + |buf| <= hi && k < |m| && !(lo <= k < hi)
    ensures Programmed(Erased(m, lo, hi), addr, buf)[k] == m[k]
  {
  }

  /** The address reached after `k` steps of the erase loop, in 32 bits. */
  function Stepped(first: nat, k: nat, sector: nat): nat {
    if k == 0 then first else Wrap32(Stepped(first, k - 1, sector) + sector)
  }

  lemma {:induction false} SteppedIs(first: nat, k: nat, sector: nat)
    requires first < TWO32
    ensures Stepped(first, k, sector) == (first + k * sector) % 0x1_0000_0000
  {
    if k > 0 {
      SteppedIs(first, k - 1, sector);
      Wrap32Adds(first + (k - 1) * sector, sector);
      Arith.MulDistributes(k - 1, 1, sector);
    }
  }

  /** Where the last sector is the topmost of the address space the loop variable
      wraps to zero and never passes it: the synchronous erase goes on for ever. */
  lemma {:induction false} EraseNeverEnds(first: nat, k: nat, sector: nat)
    requires SectorSize(sector) && first < TWO32 && Aligned(first, sector)
    ensures Aligned(Stepped(first, k, sector), sector) && Stepped(first, k, sector) <= TWO32 - sector
  {
    if k == 0 {
      NextSector(first, TWO32, sector);
    } else {
      EraseNeverEnds(first, k - 1, sector);
      var s := Stepped(first, k - 1, sector);
      NextSector(s, TWO32, sector);
      NextSector(s + sector, TWO32, sector);
    }
  }

  /** A page of zeros for an address far behind every device is accepted by all
      of them, and clears their last page. */
  method OverflowingProgram(f: Flash) returns (ok: bool)
    requires f.Valid()
    modifies f
    ensures ok && f.Valid() && f.mem == Programmed(old(f.mem), f.size - PAGE, seq(PAGE, _ => 0))
  {
    var buf: seq<Byte> := seq(PAGE, _ => 0);
    ok := f.Program(0xffff_ff00, buf);
    assert buf[..PAGE] == buf[0..PAGE] == buf && buf[PAGE..] == [];
    var m := old(f.mem);
    f.WrittenBehind(m, 0xffff_ff00, buf);
    assert Programmed(f.mem, 0, []) == f.mem;
  }

  lemma TopAndBottom(sector: nat)
    requires SectorSize(sector)
    ensures 0xff00_0000 < RoundDown(0xffff_ff00, sector) && RoundDown(0xff, sector) == 0
  {
  }

  /** Likewise an asynchronous erase for such an address erases sector zero, where
      the synchronous one erases nothing. */
  method OverflowingErase(f: Flash, g: Flash)
    requires f.Valid() && g.Valid() && f != g
    modifies f, g
    ensures f.Valid() && f.mem == Erased(old(f.mem), 0, f.sector)
    ensures g.Valid() && g.mem == old(g.mem)
  {
    hide RoundDown, JobErased, JobLandings, SpanErased, Erased;
    SizeAligned(f.size, f.sector);
    SizeAligned(g.size, g.sector);
    TopAndBottom(f.sector);
    TopAndBottom(g.sector);
    ghost var first := RoundDown(0xffff_ff00, f.sector);
    f.AsyncErase(0xffff_ff00, 0x200);
    WrappedJob(old(f.mem), first, 0, f.size, f.sector);
    g.Erase(0xffff_ff00, 0x200);
  }
}
