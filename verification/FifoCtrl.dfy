/** The command FIFO of the host driver: a sliding window of commands with
    16-bit sequence numbers, and SPI transactions with a cached control word. */
module FifoCtrl {
  import Arith
  import opened Basics

  const MAX_SEQS_OUT: nat := 15
  const POKE32_CMD: nat := 256
  const PEEK32_CMD: nat := 0
  const SETTING_REGS_BASE: nat := 0x7000
  const READBACK_BASE: nat := 0x5C00
  const SPI_DIV: nat := 185
  const SPI_CTRL: nat := 186
  const SPI_DATA: nat := 187
  const SPI_RB: nat := 0x5C00
  const SPI_DIVIDER: nat := 16

  /** The result of a call, or the exception it ended with. */
  datatype Result = Ok(value: nat) | SendTimeout | AckTimeout

  /** The two payload words of a command. */
  datatype Frame = Frame(word: nat, data: nat)

  function PackWord(addr: nat, cmd: nat, seqNo: nat): nat {
    addr % 256 + cmd + seqNo * TWO16
  }

  // How the device reads a command word.
  function WordAddr(w: nat): nat { w % 256 }
  predicate WordIsPoke(w: nat) { w / 256 % 2 == 1 }
  function WordSeq(w: nat): nat { w / TWO16 }

  lemma FieldsApart(low: nat, flag: nat, seqNo: nat)
    requires low < 256 && flag < 2
    ensures var w := low + flag * 256 + seqNo * 0x1_0000;
            w % 256 == low && w / 256 % 2 == flag && w / 0x1_0000 == seqNo
  {
    var w := low + flag * 256 + seqNo * 0x1_0000;
    Arith.RemainderUnique(w, 256, flag + 256 * seqNo, low);
    Arith.RemainderUnique(flag + 256 * seqNo, 2, 128 * seqNo, flag);
    Arith.RemainderUnique(w, 0x1_0000, seqNo, low + flag * 256);
  }

  lemma PackRoundTrip(addr: nat, cmd: nat, seqNo: nat)
    requires cmd == POKE32_CMD || cmd == PEEK32_CMD
    ensures var w := PackWord(addr, cmd, seqNo);
            WordAddr(w) == addr % 256 && (WordIsPoke(w) <==> cmd == POKE32_CMD) && WordSeq(w) == seqNo
  {
    var low, flag := addr % 256, if cmd == POKE32_CMD then 1 else 0;
    FieldsApart(low, flag, seqNo);
  }

  // -------------------------------------------------------------------
  // Comparison of wrapped sequence numbers.
  // -------------------------------------------------------------------

  function AsInt16(x: int): (r: int)
    ensures -32768 <= r < 32768 && (r - x) % TWO16 == 0
  {
    if x % TWO16 < 32768 then x % TWO16 else x % TWO16 - TWO16
  }

  /** Sequence number `a` comes before `b`: same sign bits compare as unsigned,
      otherwise the wrapped difference decides. */
  predicate WrapLess(a: nat, b: nat)
    requires a < TWO16 && b < TWO16
  {
    if (AsInt16(a) < 0) == (AsInt16(b) < 0) then a < b
    else AsInt16(AsInt16(b) - AsInt16(a)) > 0
  }

  lemma WrapLessIffDistance(a: nat, b: nat)
    requires a < TWO16 && b < TWO16
    ensures WrapLess(a, b) <==> 1 <= (b - a) % TWO16 <= 32767
  {
  }

  /** Behind the wrapped comparison: it orders unbounded positions correctly as
      long as they are less than half the number space apart. */
  lemma WrapLessOrders(a: int, b: int)
    requires -32768 < b - a < 32768
    ensures WrapLess(a % TWO16, b % TWO16) <==> a < b
  {
    hide WrapLess;
    WrapLessIffDistance(a % TWO16, b % TWO16);
    var x := b % TWO16 - a % TWO16;
    Arith.RemainderUnique(b - a, TWO16, x / TWO16 + b / TWO16 - a / TWO16, x % TWO16);
    if a <= b {
      Arith.RemainderUnique(b - a, TWO16, 0, b - a);
    } else {
      Arith.RemainderUnique(b - a, TWO16, -1, b - a + TWO16);
    }
  }

  // -------------------------------------------------------------------
  // SPI control and data words.
  // -------------------------------------------------------------------

  datatype SpiConfig = SpiConfig(mosiFalls: bool, misoRises: bool)

  function CtrlWord(slave: nat, config: SpiConfig, bits: nat): (w: nat)
    requires 1 <= bits <= 32
    ensures 0 < w < TWO32
  {
    slave % 0x100_0000 + bits * 0x100_0000
    + (if config.misoRises then 0x4000_0000 else 0) + (if config.mosiFalls then 0x8000_0000 else 0)
  }

  /** A cache hit means the very same configuration. */
  lemma CtrlWordInjective(s1: nat, c1: SpiConfig, b1: nat, s2: nat, c2: SpiConfig, b2: nat)
    requires 1 <= b1 <= 32 && 1 <= b2 <= 32
    ensures CtrlWord(s1, c1, b1) == CtrlWord(s2, c2, b2) <==>
              s1 % 0x100_0000 == s2 % 0x100_0000 && c1 == c2 && b1 == b2
  {
  }

  /** The fields of the control word where the SPI core looks for them: slaves
      in the low 24 bits, the length above, then the two edges. */
  lemma CtrlWordFields(slave: nat, config: SpiConfig, bits: nat)
    requires 1 <= bits <= 32
    ensures var w := CtrlWord(slave, config, bits);
            && w % 0x100_0000 == slave % 0x100_0000
            && w / 0x100_0000 % 64 == bits
            && (w / 0x4000_0000 % 2 == 1 <==> config.misoRises)
            && (w / 0x8000_0000 == 1 <==> config.mosiFalls)
  {
    var low, w := slave % 0x100_0000, CtrlWord(slave, config, bits);
    var rise, fall := if config.misoRises then 1 else 0, if config.mosiFalls then 1 else 0;
    Arith.RemainderUnique(w, 0x100_0000, bits + 64 * rise + 128 * fall, low);
    Arith.RemainderUnique(bits + 64 * rise + 128 * fall, 64, rise + 2 * fall, bits);
    Arith.RemainderUnique(w, 0x4000_0000, rise + 2 * fall, low + bits * 0x100_0000);
  }

  /** The data word on the wire: shifted to the upper bits of 32. */
  function DataOut(data: nat, bits: nat): nat
    requires 1 <= bits <= 32
  {
    data * Pow2(32 - bits) % TWO32
  }

  /** The upper `bits` bits of the word are the low bits of the data, and
      nothing lies below them. */
  lemma DataOutHoldsLowBits(data: nat, bits: nat)
    requires 1 <= bits <= 32
    ensures DataOut(data, bits) == data % Pow2(bits) * Pow2(32 - bits)
  {
    Pow2Adds(bits, 32 - bits);
    Pow2Of32();
    Arith.ShiftWithinWord(data, Pow2(bits), Pow2(32 - bits));
  }

  predicate WritesTo(f: Frame, reg: nat) {
    WordIsPoke(f.word) && WordAddr(f.word) == reg
  }

  /** The device's SPI control register after a run of commands was sent of
      which the k-th, counted from one, arrived if `arrives` says so. */
  ghost function DeviceCtrl(run: seq<Frame>, arrives: nat -> bool, reset: nat): nat {
    if run == [] then reset
    else if arrives(|run|) && WritesTo(run[|run| - 1], SPI_CTRL) then run[|run| - 1].data
    else DeviceCtrl(run[..|run| - 1], arrives, reset)
  }

  lemma DeviceCtrlStep(run: seq<Frame>, f: Frame, arrives: nat -> bool, reset: nat)
    ensures DeviceCtrl(run + [f], arrives, reset)
         == if arrives(|run| + 1) && WritesTo(f, SPI_CTRL) then f.data else DeviceCtrl(run, arrives, reset)
  {
    assert (run + [f])[..|run|] == run;
  }

  /** Every SPI transfer that the device executed ran under the control word it
      was meant for. */
  ghost predicate TransfersOk(run: seq<Frame>, arrives: nat -> bool, wanted: map<nat, nat>, reset: nat) {
    forall k | 0 <= k < |run| && WritesTo(run[k], SPI_DATA) && arrives(k + 1) ::
      k in wanted && DeviceCtrl(run[..k], arrives, reset) == wanted[k]
  }

  /** One more command keeps this exactly when it is not a transfer that arrives
      while the device holds another word. */
  lemma TransfersStep(run: seq<Frame>, arrives: nat -> bool, wanted: map<nat, nat>, reset: nat, f: Frame, word: nat)
    ensures !WritesTo(f, SPI_DATA) ==>
              (TransfersOk(run + [f], arrives, wanted, reset) <==> TransfersOk(run, arrives, wanted, reset))
    ensures TransfersOk(run + [f], arrives, wanted[|run| := word], reset) <==>
              && TransfersOk(run, arrives, wanted, reset)
              && (WritesTo(f, SPI_DATA) && arrives(|run| + 1) ==> DeviceCtrl(run, arrives, reset) == word)
  {
    hide DeviceCtrl;
    var after, w := run + [f], wanted[|run| := word];
    assert forall k | 0 <= k <= |run| :: after[..k] == run[..k];
    assert run[..|run|] == run && after[|run|] == f;
    assert forall k | 0 <= k < |run| :: after[k] == run[k] && (k in w <==> k in wanted);
    assert forall k | 0 <= k < |run| && k in wanted :: w[k] == wanted[k];
  }

  /** A reply at hand: the next one with `skipped` replies lost before it, if the
      device has sent that one at all. */
  predicate HasReply(event: Option<nat>, replied: nat, sent: nat, arrives: nat -> bool) {
    event.Some? && replied + 1 + event.value <= sent && arrives(replied + 1 + event.value)
  }

  /** Receive calls and replies seen when a wait for the reply to command `goal`
      or a later one ends. */
  ghost function Waited(ackAt: nat -> Option<nat>, arrives: nat -> bool, calls: nat, replied: nat, sent: nat, goal: int)
    : (r: (nat, nat))
    requires replied <= sent
    ensures calls <= r.0 && replied <= r.1 <= sent
    decreases sent - replied
  {
    if goal <= replied then (calls, replied)
    else if !HasReply(ackAt(calls), replied, sent, arrives) then (calls + 1, replied)
    else Waited(ackAt, arrives, calls + 1, replied + 1 + ackAt(calls).value, sent, goal)
  }

  /** One receive of a wait. */
  lemma WaitedStep(ackAt: nat -> Option<nat>, arrives: nat -> bool, calls: nat, replied: nat, sent: nat, goal: int)
    requires replied <= sent
    ensures var r := Waited(ackAt, arrives, calls, replied, sent, goal);
            && (goal <= replied ==> r == (calls, replied))
            && (replied < goal && !HasReply(ackAt(calls), replied, sent, arrives) ==> r == (calls + 1, replied))
            && (replied < goal && HasReply(ackAt(calls), replied, sent, arrives) ==>
                  r == Waited(ackAt, arrives, calls + 1, replied + 1 + ackAt(calls).value, sent, goal))
  {
  }

  class FifoCtrl {
    const window: nat
    /** Whether a send buffer is available at the k-th request. */
    const sendOk: nat -> bool
    /** Whether the k-th command, counted from one, reaches the device. */
    const arrives: nat -> bool
    /** At the k-th receive: a timeout, or a reply with that many replies lost before it. */
    const ackAt: nat -> Option<nat>
    /** The data word in the device's reply to the k-th command. */
    const answer: nat -> nat
    /** The device's SPI control register out of reset. */
    const reset: nat

    var seqOut: nat
    var seqAck: nat
    var cache: nat

    // the transport and the device
    var sendCalls: nat
    var recvCalls: nat
    var sent: seq<Frame>
    var replied: nat
    /** Replies from an earlier session that are still waiting to be received. */
    var stale: nat

    /** Calls in a row that ended waiting for an acknowledgement. */
    ghost var failures: nat
    /** The control word each SPI transfer was meant to run under. */
    ghost var wanted: map<nat, nat>

    /** The wrapped counters stand for unbounded ones, and what is
        unacknowledged is bounded by the window. */
    ghost predicate Valid()
      reads this
    {
      && window <= MAX_SEQS_OUT && stale == 0
      && replied <= |sent|
      && seqOut == |sent| % TWO16 && seqAck == replied % TWO16
      && (forall k | 0 <= k < |sent| :: WordSeq(sent[k].word) == (k + 1) % TWO16)
      && |sent| - replied <= window + failures
    }

    /** The sequence numbers are still unambiguous: fewer than 32752 calls in a
        row have timed out. */
    ghost predicate Live()
      reads this
    {
      failures + MAX_SEQS_OUT + 1 < 32768
    }

    /** The control word the device works under. */
    ghost function Device(): nat
      reads this
    {
      DeviceCtrl(sent, arrives, reset)
    }

    /** The cached control word is what the device holds, or is void. */
    ghost predicate CacheOk()
      reads this
    {
      cache == 0 || cache == Device()
    }

    ghost predicate AllTransfersOk()
      reads this
    {
      TransfersOk(sent, arrives, wanted, reset)
    }

    /** After one more command, waiting until at most `slack` commands are
        unacknowledged will time out. */
    ghost predicate TimesOut(slack: nat)
      requires replied <= |sent|
      reads this
    {
      Waited(ackAt, arrives, recvCalls, replied, |sent| + 1, |sent| + 1 - slack).1 < |sent| + 1 - slack
    }

    /** Nothing sent and nothing received, and what was waiting is flushed; the
        cached control word is not set yet. */
    constructor (window: nat, sendOk: nat -> bool, arrives: nat -> bool, ackAt: nat -> Option<nat>,
                 answer: nat -> nat, reset: nat, unset: nat, waiting: nat)
      ensures Valid() && failures == 0 && AllTransfersOk()
      ensures this.window == if window < 15 then window else 15
      ensures this.sendOk == sendOk && this.arrives == arrives && this.ackAt == ackAt && this.answer == answer
      ensures this.reset == reset && cache == unset
      ensures sent == [] && replied == 0 && sendCalls == 0 && recvCalls == 0
    {
      this.window := if window < MAX_SEQS_OUT then window else MAX_SEQS_OUT;
      this.sendOk, this.arrives, this.ackAt, this.answer, this.reset := sendOk, arrives, ackAt, answer, reset;
      seqOut, seqAck, cache := 0, 0, unset;
      sendCalls, recvCalls, sent, replied := 0, 0, [], 0;
      failures, wanted, stale := 0, map[], waiting;
      new;
      while stale > 0
        invariant this.window == if window < MAX_SEQS_OUT then window else MAX_SEQS_OUT
        invariant this.sendOk == sendOk && this.arrives == arrives && this.ackAt == ackAt && this.answer == answer
        invariant this.reset == reset && cache == unset && failures == 0
        invariant seqOut == seqAck == 0 && sent == [] && replied == 0 && sendCalls == 0 && recvCalls == 0
      {
        stale := stale - 1;
      }
    }

    /** Puts one command on the wire under the next sequence number, unless no
        buffer is available. */
    method SendPkt(addr: nat, data: nat, cmd: nat) returns (ok: bool)
      requires Valid() && (cmd == POKE32_CMD || cmd == PEEK32_CMD)
      modifies `seqOut, `sendCalls, `sent
      ensures sendCalls == old(sendCalls) + 1 && ok == sendOk(old(sendCalls))
      ensures !ok ==> sent == old(sent) && seqOut == old(seqOut)
      ensures ok ==>
                && sent == old(sent) + [Frame(PackWord(addr, cmd, seqOut), data)]
                && seqOut == |sent| % TWO16
                && forall k | 0 <= k < |sent| :: WordSeq(sent[k].word) == (k + 1) % TWO16
    {
      ok := sendOk(sendCalls);
      sendCalls := sendCalls + 1;
      if ok {
        seqOut := (seqOut + 1) % TWO16;
        PackRoundTrip(addr, cmd, seqOut);
        sent := sent + [Frame(PackWord(addr, cmd, seqOut), data)];
      }
    }

    /** Receives replies until command number `goal` is acknowledged, of which
        only the low 16 bits are known. The value is the data word of the reply
        to `goal` itself, or zero. The wait times out exactly when the replies
        at hand end before the goal. */
    method WaitForAck(target: nat, ghost goal: int) returns (r: Result)
      requires stale == 0 && replied <= |sent| && seqAck == replied % TWO16 && target == goal % TWO16
      requires forall k | 0 <= k < |sent| :: WordSeq(sent[k].word) == (k + 1) % TWO16
      requires goal <= |sent| < goal + 32768 && |sent| - replied < 32768
      modifies `seqAck, `recvCalls, `replied
      ensures replied <= |sent| && seqAck == replied % TWO16
      ensures (recvCalls, replied) == old(Waited(ackAt, arrives, recvCalls, replied, |sent|, goal))
      ensures r == if replied < goal then AckTimeout
                   else if old(replied) < goal == replied then Ok(answer(goal)) else Ok(0)
      ensures old(replied) < goal <= replied ==> arrives(replied)
    {
      hide WrapLess, WordSeq, Waited, HasReply;
      WrapLessOrders(replied, goal);
      while WrapLess(seqAck, target)
        invariant old(replied) <= replied <= |sent| && seqAck == replied % TWO16
        invariant WrapLess(seqAck, target) <==> replied < goal
        invariant goal <= replied ==> old(replied) == replied || goal < replied
        invariant Waited(ackAt, arrives, recvCalls, replied, |sent|, goal)
               == old(Waited(ackAt, arrives, recvCalls, replied, |sent|, goal))
        invariant old(replied) < replied ==> arrives(replied)
        decreases |sent| - replied
      {
        WaitedStep(ackAt, arrives, recvCalls, replied, |sent|, goal);
        var got := Receive();
        if !got {
          return AckTimeout;
        }
        WrapLessOrders(replied, goal);
        if seqAck == target {
          SameResidue(replied, goal);
          WaitedStep(ackAt, arrives, recvCalls, replied, |sent|, goal);
          return Ok(answer(replied));
        }
      }
      WaitedStep(ackAt, arrives, recvCalls, replied, |sent|, goal);
      return Ok(0);
    }

    /** Receives one reply, if there is one in time, and takes its number. With
        nothing stale it is one to a command of this session. */
    method Receive() returns (got: bool)
      requires stale == 0 && replied <= |sent|
      requires forall k | 0 <= k < |sent| :: WordSeq(sent[k].word) == (k + 1) % TWO16
      modifies `seqAck, `recvCalls, `replied
      ensures recvCalls == old(recvCalls) + 1
      ensures got <==> HasReply(ackAt(old(recvCalls)), old(replied), |sent|, arrives)
      ensures !got ==> replied == old(replied) && seqAck == old(seqAck)
      ensures got ==>
                && old(replied) < replied == old(replied) + 1 + ackAt(old(recvCalls)).value <= |sent|
                && seqAck == replied % TWO16 && arrives(replied)
    {
      var event := ackAt(recvCalls);
      recvCalls := recvCalls + 1;
      got := HasReply(event, replied, |sent|, arrives);
      if got {
        replied := replied + 1 + event.value;
        seqAck := WordSeq(sent[replied - 1].word);
      }
    }

    lemma ResidueShifts(n: nat, k: nat)
      ensures (n % TWO16 - k) % TWO16 == (n - k) % TWO16
    {
      assert n == n / TWO16 * TWO16 + n % TWO16;
    }

    lemma SameResidue(a: int, b: int)
      requires a % TWO16 == b % TWO16 && -32768 < a - b < 32768
      ensures a == b
    {
    }

    /** Sends a command and waits until at most `slack` commands are
        unacknowledged. With no slack the value is the reply to this command,
        which then has arrived. */
    method Exchange(addr: nat, data: nat, cmd: nat, slack: nat) returns (r: Result)
      requires Valid() && Live() && slack <= window && (cmd == POKE32_CMD || cmd == PEEK32_CMD)
      modifies `seqOut, `seqAck, `sendCalls, `recvCalls, `sent, `replied, `failures
      ensures Valid()
      ensures r.SendTimeout? <==> !sendOk(old(sendCalls))
      ensures r.AckTimeout? <==> sendOk(old(sendCalls)) && old(TimesOut(slack))
      ensures sendCalls == old(sendCalls) + 1
      ensures r.SendTimeout? ==>
                sent == old(sent) && replied == old(replied) && recvCalls == old(recvCalls) && failures == old(failures)
      ensures !r.SendTimeout? ==>
                && sent == old(sent) + [Frame(PackWord(addr, cmd, seqOut), data)]
                && (recvCalls, replied)
                == old(Waited(ackAt, arrives, recvCalls, replied, |sent| + 1, |sent| + 1 - slack))
      ensures r.Ok? ==> |sent| - replied <= slack && failures == 0
      ensures r.Ok? && slack == 0 ==> r.value == answer(|sent|) && arrives(|sent|)
      ensures r.AckTimeout? ==> |sent| - replied > slack && failures == old(failures) + 1
    {
      hide PackWord, WordSeq, Waited;
      var ok := SendPkt(addr, data, cmd);
      if !ok {
        return SendTimeout;
      }
      ResidueShifts(|sent|, slack);
      assert |sent| - replied <= window + failures + 1;
      r := WaitForAck((seqOut - slack) % TWO16, |sent| - slack);
      failures := if r.Ok? then 0 else failures + 1;
    }

    /** A command other than an SPI transfer: what it does to the device. */
    method Command(addr: nat, data: nat, cmd: nat, slack: nat) returns (r: Result)
      requires Valid() && Live() && slack <= window && (cmd == POKE32_CMD || cmd == PEEK32_CMD)
      modifies `seqOut, `seqAck, `sendCalls, `recvCalls, `sent, `replied, `failures
      ensures Valid()
      ensures r.SendTimeout? <==> !sendOk(old(sendCalls))
      ensures r.AckTimeout? <==> sendOk(old(sendCalls)) && old(TimesOut(slack))
      ensures sendCalls == old(sendCalls) + 1
      ensures r.SendTimeout? ==>
                sent == old(sent) && replied == old(replied) && recvCalls == old(recvCalls) && failures == old(failures)
      ensures !r.SendTimeout? ==>
                && |sent| == |old(sent)| + 1 && sent[..|old(sent)|] == old(sent)
                && sent[|old(sent)|].data == data
                && WordAddr(sent[|old(sent)|].word) == addr % 256
                && (WordIsPoke(sent[|old(sent)|].word) <==> cmd == POKE32_CMD)
                && (recvCalls, replied)
                == old(Waited(ackAt, arrives, recvCalls, replied, |sent| + 1, |sent| + 1 - slack))
      ensures r.Ok? ==> |sent| - replied <= slack && failures == 0
      ensures r.Ok? && slack == 0 ==> r.value == answer(|sent|) && arrives(|sent|)
      ensures r.AckTimeout? ==> failures == old(failures) + 1
      ensures Device() == if !r.SendTimeout? && arrives(|old(sent)| + 1) && cmd == POKE32_CMD && addr % 256 == SPI_CTRL
                          then data else old(Device())
      ensures !(cmd == POKE32_CMD && addr % 256 == SPI_DATA) ==> (AllTransfersOk() <==> old(AllTransfersOk()))
    {
      hide PackWord, WordSeq, WordAddr, WordIsPoke, DeviceCtrl, TransfersOk, TimesOut, Waited;
      r := Exchange(addr, data, cmd, slack);
      if !r.SendTimeout? {
        PackRoundTrip(addr, cmd, seqOut);
        DeviceCtrlStep(old(sent), sent[|sent| - 1], arrives, reset);
        TransfersStep(old(sent), arrives, wanted, reset, sent[|sent| - 1], 0);
      }
    }

    /** Writes a setting register. After a successful call at most the window is
        unacknowledged. */
    method Poke32(addr: nat, data: nat) returns (r: Result)
      requires Valid() && Live() && addr < TWO32
      modifies `seqOut, `seqAck, `sendCalls, `recvCalls, `sent, `replied, `failures
      ensures Valid() && failures <= old(failures) + 1
      ensures r.SendTimeout? <==> !sendOk(old(sendCalls))
      ensures r.AckTimeout? <==> sendOk(old(sendCalls)) && old(TimesOut(window))
      ensures r.SendTimeout? ==> sent == old(sent) && replied == old(replied) && failures == old(failures)
      ensures !r.SendTimeout? ==>
                && |sent| == |old(sent)| + 1 && sent[..|old(sent)|] == old(sent)
                && WritesTo(sent[|old(sent)|], (addr - 0x7000) % TWO32 / 4 % 256)
                && sent[|old(sent)|].data == data
                && (0x7000 <= addr < 0x7400 ==> WritesTo(sent[|old(sent)|], (addr - 0x7000) / 4))
      ensures r.Ok? ==> |sent| - replied <= window <= 15 && failures == 0
      ensures old(CacheOk()) && (addr - SETTING_REGS_BASE) % TWO32 / 4 % 256 != SPI_CTRL ==> CacheOk()
      ensures old(AllTransfersOk()) && (addr - SETTING_REGS_BASE) % TWO32 / 4 % 256 != SPI_DATA ==> AllTransfersOk()
    {
      hide WordAddr, WordIsPoke, DeviceCtrl, TransfersOk, TimesOut, Waited;
      r := Command((addr - SETTING_REGS_BASE) % TWO32 / 4, data, POKE32_CMD, window);
    }

    /** Reads a readback register: the value is the data word of the reply to
        this very request, and nothing is left unacknowledged. */
    method Peek32(addr: nat) returns (r: Result)
      requires Valid() && Live() && addr < TWO32
      modifies `seqOut, `seqAck, `sendCalls, `recvCalls, `sent, `replied, `failures
      ensures Valid() && failures <= old(failures) + 1
      ensures r.SendTimeout? <==> !sendOk(old(sendCalls))
      ensures r.AckTimeout? <==> sendOk(old(sendCalls)) && old(TimesOut(0))
      ensures r.SendTimeout? ==> sent == old(sent) && replied == old(replied) && failures == old(failures)
      ensures !r.SendTimeout? ==>
                && |sent| == |old(sent)| + 1 && sent[..|old(sent)|] == old(sent)
                && !WordIsPoke(sent[|old(sent)|].word) && sent[|old(sent)|].data == 0
                && WordAddr(sent[|old(sent)|].word) == (addr - 0x5C00) % TWO32 / 4 % 256
                && (0x5C00 <= addr < 0x6000 ==> WordAddr(sent[|old(sent)|].word) == (addr - 0x5C00) / 4)
      ensures r.Ok? ==> r.value == answer(|sent|) && arrives(|sent|) && replied == |sent| && failures == 0
      ensures old(CacheOk()) ==> CacheOk()
      ensures old(AllTransfersOk()) ==> AllTransfersOk()
    {
      hide WordAddr, WordIsPoke, DeviceCtrl, TransfersOk, TimesOut, Waited;
      r := Command((addr - READBACK_BASE) % TWO32 / 4, 0, PEEK32_CMD, 0);
    }

    /** Sets the SPI clock and voids the cached control word. */
    method InitSpi() returns (r: Result)
      requires Valid() && Live()
      modifies `seqOut, `seqAck, `sendCalls, `recvCalls, `sent, `replied, `failures, `cache
      ensures Valid() && failures <= old(failures) + 1
      ensures r.SendTimeout? <==> !sendOk(old(sendCalls))
      ensures r.AckTimeout? <==> sendOk(old(sendCalls)) && old(TimesOut(window))
      ensures sendCalls == old(sendCalls) + 1
      ensures !r.SendTimeout? ==>
                && |sent| == |old(sent)| + 1 && sent[..|old(sent)|] == old(sent)
                && WritesTo(sent[|old(sent)|], 185) && sent[|old(sent)|].data == 16
                && (recvCalls, replied)
                == old(Waited(ackAt, arrives, recvCalls, replied, |sent| + 1, |sent| + 1 - window))
      ensures Device() == old(Device())
      ensures cache == if r.Ok? then 0 else old(cache)
      ensures r.Ok? ==> |sent| - replied <= window && failures == 0
      ensures old(AllTransfersOk()) ==> AllTransfersOk()
    {
      hide WordAddr, WordIsPoke, DeviceCtrl, TransfersOk, TimesOut, Waited;
      r := Command(SPI_DIV, SPI_DIVIDER, POKE32_CMD, window);
      if r.Ok? {
        cache := 0;
      }
    }

    // -----------------------------------------------------------------
    // SPI transactions. The predicates below say beforehand, from the state and
    // the oracles, what a transaction under `word` will do.
    // -----------------------------------------------------------------

    /** The control word of the transaction is sent, or need not be. */
    ghost predicate Loads(word: nat)
      requires replied <= |sent|
      reads this
    {
      cache == word || (sendOk(sendCalls) && !TimesOut(window))
    }

    /** The word the device works under once the control word was sent. */
    ghost function DeviceLoaded(word: nat): nat
      reads this
    {
      if cache != word && sendOk(sendCalls) && arrives(|sent| + 1) then word else Device()
    }

    /** The commands sent for the control word. */
    ghost function Extra(word: nat): nat
      reads this
    {
      if cache == word then 0 else 1
    }

    /** Receive calls and replies seen once the control word was waited for ... */
    ghost function AfterLoad(word: nat): (r: (nat, nat))
      requires replied <= |sent|
      reads this
      ensures r.1 <= |sent| + Extra(word)
    {
      if cache == word then (recvCalls, replied)
      else Waited(ackAt, arrives, recvCalls, replied, |sent| + 1, |sent| + 1 - window)
    }

    /** ... and once the data word was. */
    ghost function AfterData(word: nat): (r: (nat, nat))
      requires replied <= |sent|
      reads this
      ensures r.1 <= |sent| + Extra(word) + 1
    {
      var n := |sent| + Extra(word) + 1;
      Waited(ackAt, arrives, AfterLoad(word).0, AfterLoad(word).1, n, n - window)
    }

    /** Both words are sent and waited for. */
    ghost predicate Sends(word: nat)
      requires replied <= |sent|
      reads this
    {
      Loads(word) && sendOk(sendCalls + Extra(word)) && |sent| + Extra(word) + 1 - window <= AfterData(word).1
    }

    /** The transaction ends without an exception. */
    ghost predicate Succeeds(word: nat, readback: bool)
      requires replied <= |sent|
      reads this
    {
      var n := |sent| + Extra(word) + 2;
      && Sends(word)
      && (readback ==>
            && sendOk(sendCalls + Extra(word) + 1)
            && n == Waited(ackAt, arrives, AfterData(word).0, AfterData(word).1, n, n).1)
    }

    /** The device executes the transfer under its own control word, or not at all. */
    ghost predicate WillTransferRight(word: nat)
      requires replied <= |sent|
      reads this
    {
      Loads(word) && sendOk(sendCalls + Extra(word)) && arrives(|sent| + Extra(word) + 1) ==> DeviceLoaded(word) == word
    }

    /** Cache and device agree after the transaction. */
    ghost predicate WillAgree(word: nat)
      requires replied <= |sent|
      reads this
    {
      if cache == word || !sendOk(sendCalls) then CacheOk()
      else if TimesOut(window) then cache == 0 || (CacheOk() && !arrives(|sent| + 1))
      else arrives(|sent| + 1) || Device() == word
    }

    /** Loads the control word unless the cache says the device has it already. */
    method LoadCtrlWord(word: nat) returns (r: Result)
      requires Valid() && Live() && 0 < word
      modifies `seqOut, `seqAck, `sendCalls, `recvCalls, `sent, `replied, `failures, `cache
      ensures Valid() && failures <= old(failures) + if r.Ok? then 0 else 1
      ensures r.Ok? <==> old(Loads(word))
      ensures cache == if r.Ok? then word else old(cache)
      ensures Device() == old(DeviceLoaded(word))
      ensures CacheOk() <==> old(WillAgree(word))
      ensures sendCalls == old(sendCalls + Extra(word))
      ensures |old(sent)| <= |sent| && sent[..|old(sent)|] == old(sent)
      ensures r.Ok? || sendOk(old(sendCalls)) ==>
                |sent| == old(|sent| + Extra(word)) && (recvCalls, replied) == old(AfterLoad(word))
      ensures AllTransfersOk() <==> old(AllTransfersOk())
      ensures r.Ok? && old(cache) != word ==> WritesTo(sent[|old(sent)|], 186) && sent[|old(sent)|].data == word
    {
      hide WordAddr, WordIsPoke, DeviceCtrl, TransfersOk, TimesOut, Waited;
      if cache == word {
        return Ok(0);
      }
      r := Command(SPI_CTRL, word, POKE32_CMD, window);
      if r.Ok? {
        cache := word;
      }
    }

    /** Writes the data word of a transaction meant to run under `word`. */
    method SendData(data: nat, ghost word: nat) returns (r: Result)
      requires Valid() && Live()
      modifies `seqOut, `seqAck, `sendCalls, `recvCalls, `sent, `replied, `failures, `wanted
      ensures Valid() && failures <= old(failures) + 1
      ensures r.SendTimeout? <==> !sendOk(old(sendCalls))
      ensures r.AckTimeout? <==> sendOk(old(sendCalls)) && old(TimesOut(window))
      ensures sendCalls == old(sendCalls) + 1
      ensures Device() == old(Device())
      ensures r.SendTimeout? ==> sent == old(sent) && wanted == old(wanted)
      ensures !r.SendTimeout? ==>
                && |sent| == |old(sent)| + 1 && sent[..|old(sent)|] == old(sent)
                && WritesTo(sent[|old(sent)|], SPI_DATA) && sent[|old(sent)|].data == data
                && wanted == old(wanted)[|old(sent)| := word]
                && (recvCalls, replied)
                == old(Waited(ackAt, arrives, recvCalls, replied, |sent| + 1, |sent| + 1 - window))
      ensures r.Ok? ==> |sent| - replied <= window && failures == 0
      ensures AllTransfersOk() <==>
                old(AllTransfersOk()) && (!r.SendTimeout? && arrives(|old(sent)| + 1) ==> old(Device()) == word)
    {
      hide PackWord, WordSeq, WordAddr, WordIsPoke, DeviceCtrl, TransfersOk, TimesOut, Waited;
      r := Exchange(SPI_DATA, data, POKE32_CMD, window);
      if !r.SendTimeout? {
        ghost var f := sent[|old(sent)|];
        PackRoundTrip(SPI_DATA, POKE32_CMD, seqOut);
        DeviceCtrlStep(old(sent), f, arrives, reset);
        TransfersStep(old(sent), arrives, wanted, reset, f, word);
        wanted := wanted[|old(sent)| := word];
      }
    }

    /** Control word and data word of a transaction, from any state. */
    method Transfer(word: nat, data: nat) returns (r: Result)
      requires Valid() && Live() && 0 < word
      modifies `seqOut, `seqAck, `sendCalls, `recvCalls, `sent, `replied, `failures, `cache, `wanted
      ensures Valid() && failures <= old(failures) + 1
      ensures r.Ok? <==> old(Sends(word))
      ensures old(!Loads(word) && sendOk(sendCalls)) ==>
                |sent| == |old(sent)| + 1 && (recvCalls, replied) == old(AfterLoad(word))
      ensures r.Ok? ==>
                var k := old(|sent| + Extra(word));
                && (recvCalls, replied) == old(AfterData(word)) && sendCalls == old(sendCalls + Extra(word) + 1)
                && |sent| == k + 1 && sent[..|old(sent)|] == old(sent)
                && WritesTo(sent[k], 187) && sent[k].data == data
                && (old(cache) != word ==> WritesTo(sent[k - 1], 186) && sent[k - 1].data == word)
                && DeviceCtrl(sent[..k], arrives, reset) == old(DeviceLoaded(word))
                && |sent| - replied <= window && failures == 0
      ensures cache == if old(Loads(word)) then word else old(cache)
      ensures Device() == old(DeviceLoaded(word))
      ensures CacheOk() <==> old(WillAgree(word))
      ensures AllTransfersOk() <==> old(AllTransfersOk() && WillTransferRight(word))
    {
      hide DeviceCtrl, TransfersOk, Waited, WordAddr, WordIsPoke, WillAgree, DeviceLoaded, AfterLoad;
      r := LoadCtrlWord(word);
      if r.Ok? {
        r := SendData(data, word);
      }
    }

    /** One SPI transaction, from any state. Whether it succeeds, whether the
        device executes its data command under the control word of this slave,
        length and edges, and whether cache and device agree afterwards, is
        decided beforehand by the state and the oracles, exactly. */
    method TransactSpi(slave: nat, config: SpiConfig, data: nat, bits: nat, readback: bool) returns (r: Result)
      requires Valid() && Live() && 1 <= bits <= 32
      modifies `seqOut, `seqAck, `sendCalls, `recvCalls, `sent, `replied, `failures, `cache, `wanted
      ensures Valid() && failures <= old(failures) + 1
      ensures r.Ok? <==> old(Succeeds(CtrlWord(slave, config, bits), readback))
      ensures old(!Loads(CtrlWord(slave, config, bits)) && sendOk(sendCalls)) ==>
                |sent| == |old(sent)| + 1 && (recvCalls, replied) == old(AfterLoad(CtrlWord(slave, config, bits)))
      ensures r.Ok? ==> |sent| - replied <= window && failures == 0
      ensures r.Ok? && !readback ==>
                r.value == 0 && (recvCalls, replied) == old(AfterData(CtrlWord(slave, config, bits)))
      ensures r.Ok? && readback ==> r.value == answer(|sent|) && arrives(|sent|) && replied == |sent|
      ensures r.Ok? ==>
                var k := old(|sent| + Extra(CtrlWord(slave, config, bits)));
                && |sent| == k + (if readback then 2 else 1) && sent[..|old(sent)|] == old(sent)
                && WritesTo(sent[k], 187) && sent[k].data == DataOut(data, bits)
                && (old(cache) != CtrlWord(slave, config, bits) ==>
                      WritesTo(sent[k - 1], 186) && sent[k - 1].data == CtrlWord(slave, config, bits))
                && (readback ==>
                      !WordIsPoke(sent[k + 1].word) && WordAddr(sent[k + 1].word) == 0 && sent[k + 1].data == 0)
                && DeviceCtrl(sent[..k], arrives, reset) == old(DeviceLoaded(CtrlWord(slave, config, bits)))
      ensures cache == if old(Loads(CtrlWord(slave, config, bits))) then CtrlWord(slave, config, bits) else old(cache)
      ensures Device() == old(DeviceLoaded(CtrlWord(slave, config, bits)))
      ensures CacheOk() <==> old(WillAgree(CtrlWord(slave, config, bits)))
      ensures AllTransfersOk() <==> old(AllTransfersOk() && WillTransferRight(CtrlWord(slave, config, bits)))
    {
      hide CtrlWord, DataOut, DeviceCtrl, TransfersOk, Waited, WordAddr, WordIsPoke;
      hide WillAgree, WillTransferRight, Loads, DeviceLoaded, AfterLoad, AfterData;
      var word := CtrlWord(slave, config, bits);
      r := Transfer(word, DataOut(data, bits));
      if !r.Ok? {
        return;
      }
      if readback {
        ghost var k, middle := |sent| - 1, sent;
        r := Command(SPI_RB, 0, PEEK32_CMD, 0);
        assert r.Ok? ==> sent[..k] == middle[..k] && (k > 0 ==> sent[k - 1] == middle[k - 1]);
        return;
      }
      r := Ok(0);
    }
  }

  /** Builds the object and initializes SPI; an exception of the latter is one of
      the former. */
  method Make(window: nat, sendOk: nat -> bool, arrives: nat -> bool, ackAt: nat -> Option<nat>,
              answer: nat -> nat, reset: nat, unset: nat, waiting: nat) returns (r: Result, c: FifoCtrl)
    ensures fresh(c) && c.Valid() && c.failures <= 1 && c.AllTransfersOk()
    ensures c.window == if window < 15 then window else 15
    ensures c.sendOk == sendOk && c.arrives == arrives && c.ackAt == ackAt && c.answer == answer && c.reset == reset
    ensures !r.Ok? ==> c.cache == unset
    ensures r.Ok? <==> sendOk(0) && 1 - c.window <= Waited(ackAt, arrives, 0, 0, 1, 1 - c.window).1
    ensures r.Ok? ==>
              && c.cache == 0 && c.Device() == reset && c.failures == 0 && c.sendCalls == 1
              && |c.sent| == 1 && WritesTo(c.sent[0], 185) && c.sent[0].data == 16
              && (c.recvCalls, c.replied) == Waited(ackAt, arrives, 0, 0, 1, 1 - c.window)
  {
    c := new FifoCtrl(window, sendOk, arrives, ackAt, answer, reset, unset, waiting);
    r := c.InitSpi();
  }

  // -------------------------------------------------------------------
  // Two runs in which a transfer goes to the wrong slave.
  // -------------------------------------------------------------------

  const PLAIN := SpiConfig(false, false)

  lemma WaitedNext(ackAt: nat -> Option<nat>, arrives: nat -> bool, calls: nat, replied: nat)
    requires ackAt(calls) == Some(0) && arrives(replied + 1)
    ensures Waited(ackAt, arrives, calls, replied, replied + 1, replied + 1) == (calls + 1, replied + 1)
  {
  }

  /** Without slack, a transaction whose two commands arrive and are answered in time. */
  lemma CleanTransfer(c: FifoCtrl, word: nat)
    requires c.window == 0 && c.replied == |c.sent| && c.cache != word
    requires c.sendOk(c.sendCalls) && c.sendOk(c.sendCalls + 1) && c.arrives(|c.sent| + 1) && c.arrives(|c.sent| + 2)
    requires c.ackAt(c.recvCalls) == c.ackAt(c.recvCalls + 1) == Some(0)
    ensures c.Loads(word) && c.Succeeds(word, false) && c.DeviceLoaded(word) == word && c.Extra(word) == 1
    ensures c.AfterData(word) == (c.recvCalls + 2, |c.sent| + 2)
  {
    hide Waited;
    WaitedNext(c.ackAt, c.arrives, c.recvCalls, c.replied);
    WaitedNext(c.ackAt, c.arrives, c.recvCalls + 1, c.replied + 1);
  }

  /** Without slack, a transaction whose control word arrives but is not answered in time. */
  lemma CutOffTransfer(c: FifoCtrl, word: nat)
    requires c.window == 0 && c.replied == |c.sent| && c.cache != word
    requires c.sendOk(c.sendCalls) && c.arrives(|c.sent| + 1) && c.ackAt(c.recvCalls) == None
    ensures !c.Loads(word) && c.DeviceLoaded(word) == word
    ensures c.AfterLoad(word) == (c.recvCalls + 1, c.replied)
  {
    hide Waited;
    WaitedStep(c.ackAt, c.arrives, c.recvCalls, c.replied, |c.sent| + 1, |c.sent| + 1);
  }

  /** Without slack, a transaction whose word is cached, with one reply outstanding. */
  lemma CachedTransfer(c: FifoCtrl, word: nat)
    requires c.window == 0 && c.replied + 1 == |c.sent| && c.cache == word
    requires c.sendOk(c.sendCalls) && c.arrives(|c.sent|) && c.arrives(|c.sent| + 1)
    requires c.ackAt(c.recvCalls) == c.ackAt(c.recvCalls + 1) == Some(0)
    ensures c.Loads(word) && c.Succeeds(word, false) && c.DeviceLoaded(word) == c.Device() && c.Extra(word) == 0
    ensures c.WillTransferRight(word) <==> c.Device() == word
  {
    hide Waited, DeviceCtrl;
    WaitedStep(c.ackAt, c.arrives, c.recvCalls, c.replied, |c.sent| + 1, |c.sent| + 1);
    WaitedNext(c.ackAt, c.arrives, c.recvCalls + 1, c.replied + 1);
  }

  /** Every command is executed and one answer comes too late: a transaction with
      slave 2 is cut off after its control word, the next one with slave 1 finds
      its own word in the cache, succeeds, and is executed under slave 2's word. */
  method CutOff(answer: nat -> nat, reset: nat) returns (c: FifoCtrl, r: Result)
    ensures fresh(c) && c.Valid() && r.Ok? && |c.sent| == 5
    ensures WritesTo(c.sent[4], SPI_DATA) && c.arrives(5)
    ensures DeviceCtrl(c.sent[..4], c.arrives, reset) == CtrlWord(2, PLAIN, 8) != CtrlWord(1, PLAIN, 8) == c.cache
    ensures !c.AllTransfersOk()
  {
    hide CtrlWord, DataOut, DeviceCtrl, TransfersOk, WordAddr, WordIsPoke, Waited;
    hide FifoCtrl.Loads, FifoCtrl.Succeeds, FifoCtrl.DeviceLoaded, FifoCtrl.AfterLoad, FifoCtrl.AfterData;
    hide FifoCtrl.Valid, FifoCtrl.Extra, FifoCtrl.WillAgree, FifoCtrl.WillTransferRight, FifoCtrl.Device;
    hide FifoCtrl.AllTransfersOk;
    var all: nat -> bool, ackAt: nat -> Option<nat> := k => true, k => if k == 3 then None else Some(0);
    WaitedNext(ackAt, all, 0, 0);
    r, c := Make(0, all, all, ackAt, answer, reset, 0, 0);
    assert c.recvCalls == c.replied == |c.sent| == 1;
    CtrlWordInjective(1, PLAIN, 8, 2, PLAIN, 8);
    CleanTransfer(c, CtrlWord(1, PLAIN, 8));
    r := c.TransactSpi(1, PLAIN, 0, 8, false);
    CutOffTransfer(c, CtrlWord(2, PLAIN, 8));
    r := c.TransactSpi(2, PLAIN, 0, 8, false);
    CachedTransfer(c, CtrlWord(1, PLAIN, 8));
    r := c.TransactSpi(1, PLAIN, 0, 8, false);
  }

  /** With one command of slack, a transaction after one that is not yet fully
      answered, whose control word is lost. */
  lemma LostTransfer(c: FifoCtrl, word: nat)
    requires c.window == 1 && c.replied + 1 == |c.sent| && c.cache != word
    requires c.sendOk(c.sendCalls) && c.sendOk(c.sendCalls + 1)
    requires c.arrives(|c.sent|) && !c.arrives(|c.sent| + 1) && c.arrives(|c.sent| + 2)
    requires c.ackAt(c.recvCalls) == Some(0) && c.ackAt(c.recvCalls + 1) == Some(1)
    ensures c.Loads(word) && c.Succeeds(word, false) && c.DeviceLoaded(word) == c.Device() && c.Extra(word) == 1
    ensures c.WillTransferRight(word) <==> c.Device() == word
  {
    hide Waited, DeviceCtrl;
    var n := |c.sent|;
    WaitedStep(c.ackAt, c.arrives, c.recvCalls, c.replied, n + 1, n);
    WaitedStep(c.ackAt, c.arrives, c.recvCalls + 1, n, n + 1, n);
    WaitedStep(c.ackAt, c.arrives, c.recvCalls + 1, n, n + 2, n + 1);
    WaitedStep(c.ackAt, c.arrives, c.recvCalls + 2, n + 2, n + 2, n + 1);
  }

  /** With one command of slack, a transaction in the steady state. */
  lemma SlackTransfer(c: FifoCtrl, word: nat)
    requires c.window == 1 && c.replied + 1 == |c.sent| && c.cache != word
    requires c.sendOk(c.sendCalls) && c.sendOk(c.sendCalls + 1)
    requires c.arrives(|c.sent|) && c.arrives(|c.sent| + 1)
    requires c.ackAt(c.recvCalls) == c.ackAt(c.recvCalls + 1) == Some(0)
    ensures c.Loads(word) && c.Succeeds(word, false) && c.DeviceLoaded(word) == word && c.Extra(word) == 1
    ensures c.AfterData(word) == (c.recvCalls + 2, |c.sent| + 1)
  {
    hide Waited;
    var n := |c.sent|;
    WaitedStep(c.ackAt, c.arrives, c.recvCalls, c.replied, n + 1, n);
    WaitedStep(c.ackAt, c.arrives, c.recvCalls + 1, n, n + 1, n);
    WaitedStep(c.ackAt, c.arrives, c.recvCalls + 1, n, n + 2, n + 1);
    WaitedStep(c.ackAt, c.arrives, c.recvCalls + 2, n + 1, n + 2, n + 1);
  }

  /** Every wait ends in time and one command is lost: the control word for slave
      2 does not arrive, and its transfer is executed under slave 1's word. */
  method LostWord(answer: nat -> nat, reset: nat) returns (c: FifoCtrl, r: Result)
    ensures fresh(c) && c.Valid() && r.Ok? && |c.sent| == 5
    ensures WritesTo(c.sent[4], SPI_DATA) && c.arrives(5)
    ensures DeviceCtrl(c.sent[..4], c.arrives, reset) == CtrlWord(1, PLAIN, 8) != CtrlWord(2, PLAIN, 8) == c.cache
    ensures !c.AllTransfersOk()
  {
    hide CtrlWord, DataOut, DeviceCtrl, TransfersOk, WordAddr, WordIsPoke, Waited;
    hide FifoCtrl.Loads, FifoCtrl.Succeeds, FifoCtrl.DeviceLoaded, FifoCtrl.AfterLoad, FifoCtrl.AfterData;
    hide FifoCtrl.Valid, FifoCtrl.Extra, FifoCtrl.WillAgree, FifoCtrl.WillTransferRight, FifoCtrl.Device;
    hide FifoCtrl.AllTransfersOk;
    var all: nat -> bool, but4: nat -> bool := k => true, k => k != 4;
    var ackAt: nat -> Option<nat> := k => if k == 3 then Some(1) else Some(0);
    WaitedStep(ackAt, but4, 0, 0, 1, 0);
    r, c := Make(1, all, but4, ackAt, answer, reset, 0, 0);
    assert c.recvCalls == c.replied == 0 && |c.sent| == 1;
    CtrlWordInjective(1, PLAIN, 8, 2, PLAIN, 8);
    SlackTransfer(c, CtrlWord(1, PLAIN, 8));
    r := c.TransactSpi(1, PLAIN, 0, 8, false);
    LostTransfer(c, CtrlWord(2, PLAIN, 8));
    r := c.TransactSpi(2, PLAIN, 0, 8, false);
  }
}
