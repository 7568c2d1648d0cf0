/** Transmit flow control: the sending thread takes credit in separate steps
    while the acknowledgement thread may run between any two of them, and the
    device drains its packet memory. */
module FlowControl {
  import Arith
  import opened Basics

  const SRAM_BYTES: nat := 0x8_0000

  /** The credit given to a channel: how many frames its packet memory holds. */
  function Window(frameSize: nat): nat
    requires 0 < frameSize
  {
    SRAM_BYTES / frameSize
  }

  /** Where the sending thread stands between the steps of taking a buffer. */
  datatype Stage = Idle | Checked | HasBuffer | Holding(word: nat)

  /** A committed frame: its flow-control word and its size. */
  datatype TxFrame = TxFrame(word: nat, bytes: nat)

  /** The monitor's two wrapped counters, the sender's stage, the frames put on
      the wire and how many of them the device has drained. */
  datatype State = State(lastOut: nat, lastAck: nat, stage: Stage, frames: seq<TxFrame>, drained: nat)

  datatype Event =
    | CheckPasses | CheckTimesOut
    | BufferArrives | BufferTimesOut
    | TakeSequence
    | Commit(bytes: nat)
    | Drain
    | Ack(count: nat)

  function Difference32(a: nat, b: nat): nat {
    (a - b) % TWO32
  }

  predicate Ready(s: State, window: nat) {
    Difference32(s.lastOut, s.lastAck) < window
  }

  const INITIAL := State(0, 0, Idle, [], 0)

  /** How many sequence numbers have been taken. */
  function Issued(s: State): nat {
    |s.frames| + if s.stage.Holding? then 1 else 0
  }

  /** When an event can happen. An acknowledgement names a count of frames the
      device has really drained, and counts do not go back. */
  predicate Enabled(s: State, e: Event, acked: nat, window: nat, frameSize: nat) {
    match e
    case CheckPasses => s.stage.Idle? && Ready(s, window)
    case CheckTimesOut => s.stage.Idle? && !Ready(s, window)
    case BufferArrives | BufferTimesOut => s.stage.Checked?
    case TakeSequence => s.stage.HasBuffer?
    case Commit(bytes) => s.stage.Holding? && bytes <= frameSize
    case Drain => s.drained < |s.frames|
    case Ack(count) => acked <= count <= s.drained
  }

  function Step(s: State, e: Event): State {
    match e
    case CheckPasses => s.(stage := Checked)
    case CheckTimesOut => s
    case BufferArrives => s.(stage := HasBuffer)
    case BufferTimesOut => s.(stage := Idle)
    case TakeSequence => s.(stage := Holding(s.lastOut), lastOut := (s.lastOut + 1) % TWO32)
    case Commit(bytes) =>
      if s.stage.Holding? then s.(stage := Idle, frames := s.frames + [TxFrame(s.stage.word, bytes)]) else s
    case Drain => s.(drained := s.drained + 1)
    case Ack(count) => s.(lastAck := count % TWO32)
  }

  function AckedAfter(e: Event, acked: nat): nat {
    if e.Ack? then e.count else acked
  }

  /** The state after a run of enabled events, and the last count acknowledged. */
  ghost predicate Reaches(events: seq<Event>, window: nat, frameSize: nat, s: State, acked: nat)
    decreases |events|
  {
    if events == [] then s == INITIAL && acked == 0
    else
      var e := events[|events| - 1];
      exists p, a | Reaches(events[..|events| - 1], window, frameSize, p, a) ::
        Enabled(p, e, a, window, frameSize) && s == Step(p, e) && acked == AckedAfter(e, a)
  }

  /** The invariant, over unbounded counts: credit once checked cannot be lost,
      because acknowledgements only ever return more of it. */
  ghost predicate Inv(s: State, acked: nat, window: nat, frameSize: nat) {
    && acked <= s.drained <= |s.frames|
    && s.lastOut == Issued(s) % TWO32 && s.lastAck == acked % TWO32
    && Issued(s) - acked <= window
    && (s.stage.Checked? || s.stage.HasBuffer? ==> Issued(s) - acked < window)
    && (s.stage.Holding? ==> s.stage.word == |s.frames| % TWO32)
    && (forall k | 0 <= k < |s.frames| :: FrameOk(s.frames[k], k, frameSize))
  }

  ghost predicate FrameOk(f: TxFrame, k: nat, frameSize: nat) {
    f.word == k % TWO32 && f.bytes <= frameSize
  }

  lemma WrappedDifference(a: nat, b: nat)
    requires b <= a < b + TWO32
    ensures Difference32(a % TWO32, b % TWO32) == a - b
  {
    assert (a % TWO32 - b % TWO32) % TWO32 == (a - b) % TWO32;
  }

  /** The check compares the true number of sequence numbers not yet acknowledged. */
  lemma ReadyIffCredit(s: State, acked: nat, window: nat, frameSize: nat)
    requires Inv(s, acked, window, frameSize) && window < TWO32
    ensures Ready(s, window) <==> Issued(s) - acked < window
  {
    WrappedDifference(Issued(s), acked);
  }

  lemma StepKeepsInv(s: State, e: Event, acked: nat, window: nat, frameSize: nat)
    requires Inv(s, acked, window, frameSize) && Enabled(s, e, acked, window, frameSize) && window < TWO32
    ensures Inv(Step(s, e), AckedAfter(e, acked), window, frameSize)
  {
    ReadyIffCredit(s, acked, window, frameSize);
  }

  lemma {:induction false} RunsKeepInv(events: seq<Event>, window: nat, frameSize: nat, s: State, acked: nat)
    requires window < TWO32 && Reaches(events, window, frameSize, s, acked)
    ensures Inv(s, acked, window, frameSize)
    decreases |events|
  {
    if events != [] {
      var e := events[|events| - 1];
      var p, a :| Reaches(events[..|events| - 1], window, frameSize, p, a)
                  && Enabled(p, e, a, window, frameSize) && s == Step(p, e) && acked == AckedAfter(e, a);
      RunsKeepInv(events[..|events| - 1], window, frameSize, p, a);
      StepKeepsInv(p, e, a, window, frameSize);
    }
  }

  ghost function Bytes(frames: seq<TxFrame>): nat {
    if frames == [] then 0 else frames[0].bytes + Bytes(frames[1..])
  }

  lemma {:induction false} BytesBounded(frames: seq<TxFrame>, frameSize: nat)
    requires forall k | 0 <= k < |frames| :: frames[k].bytes <= frameSize
    ensures Bytes(frames) <= |frames| * frameSize
  {
    if frames != [] {
      BytesBounded(frames[1..], frameSize);
      Arith.MulDistributes(1, |frames| - 1, frameSize);
    }
  }

  /** Under every interleaving, and however often the counters wrap, the frames
      on their way to the device or in its memory never exceed the window, fit
      the packet memory, and carry consecutive flow-control words. */
  lemma MemoryNeverOverflows(events: seq<Event>, frameSize: nat, s: State, acked: nat)
    requires 0 < frameSize && Reaches(events, Window(frameSize), frameSize, s, acked)
    ensures s.drained <= |s.frames| && |s.frames| - s.drained <= Issued(s) - acked <= Window(frameSize)
    ensures Bytes(s.frames[s.drained..]) <= SRAM_BYTES
    ensures forall k | 0 <= k < |s.frames| :: s.frames[k].word == k % TWO32
  {
    Arith.QuotientBounds(SRAM_BYTES, frameSize);
    RunsKeepInv(events, Window(frameSize), frameSize, s, acked);
    assert forall k | 0 <= k < |s.frames| :: FrameOk(s.frames[k], k, frameSize);
    var pending := s.frames[s.drained..];
    BytesBounded(pending, frameSize);
    Arith.MulMonotone(|pending|, Window(frameSize), frameSize);
  }

  /** Credit comes back: once everything was drained and acknowledged, an idle
      sender passes the check, exactly when a frame fits the memory at all. */
  lemma CreditReturns(events: seq<Event>, frameSize: nat, s: State)
    requires 0 < frameSize && Reaches(events, Window(frameSize), frameSize, s, |s.frames|) && s.stage.Idle?
    ensures Enabled(s, CheckPasses, |s.frames|, Window(frameSize), frameSize) <==> frameSize <= SRAM_BYTES
  {
    Arith.QuotientBounds(SRAM_BYTES, frameSize);
    RunsKeepInv(events, Window(frameSize), frameSize, s, |s.frames|);
    ReadyIffCredit(s, |s.frames|, Window(frameSize), frameSize);
    if Window(frameSize) >= 1 {
      Arith.MulMonotone(1, Window(frameSize), frameSize);
    }
  }

  /** The window is the largest number of frames that fit the packet memory. */
  lemma WindowFillsMemory(frameSize: nat)
    requires 0 < frameSize
    ensures Window(frameSize) * frameSize <= 0x8_0000 < (Window(frameSize) + 1) * frameSize
    ensures forall n: nat :: n <= Window(frameSize) <==> n * frameSize <= 0x8_0000
  {
    var w := Window(frameSize);
    Arith.QuotientBounds(SRAM_BYTES, frameSize);
    Arith.MulDistributes(w, 1, frameSize);
    forall n: nat
      ensures n <= w <==> n * frameSize <= 0x8_0000
    {
      if n <= w {
        Arith.MulMonotone(n, w, frameSize);
      } else {
        Arith.MulMonotone(w + 1, n, frameSize);
      }
    }
  }

  /** A sender is held back exactly when one more frame of full size might not
      fit the memory beside those it has not seen acknowledged. */
  lemma HeldBackIffFull(events: seq<Event>, frameSize: nat, s: State, acked: nat)
    requires 0 < frameSize && Reaches(events, Window(frameSize), frameSize, s, acked) && s.stage.Idle?
    ensures var wanted := (|s.frames| - acked + 1) * frameSize;
            && (Enabled(s, CheckTimesOut, acked, Window(frameSize), frameSize) <==> wanted > 0x8_0000)
            && (Enabled(s, CheckPasses, acked, Window(frameSize), frameSize) <==> wanted <= 0x8_0000)
  {
    Arith.QuotientBounds(SRAM_BYTES, frameSize);
    RunsKeepInv(events, Window(frameSize), frameSize, s, acked);
    ReadyIffCredit(s, acked, Window(frameSize), frameSize);
    WindowFillsMemory(frameSize);
    var n: nat := |s.frames| - acked + 1;
    assert n <= Window(frameSize) <==> n * frameSize <= 0x8_0000;
  }

  lemma Extends(events: seq<Event>, window: nat, frameSize: nat, s: State, acked: nat, e: Event)
    requires Reaches(events, window, frameSize, s, acked) && Enabled(s, e, acked, window, frameSize)
    ensures Reaches(events + [e], window, frameSize, Step(s, e), AckedAfter(e, acked))
  {
    var more := events + [e];
    assert more != [] && more[..|more| - 1] == events && more[|more| - 1] == e;
    assert Reaches(more[..|more| - 1], window, frameSize, s, acked)
           && Enabled(s, more[|more| - 1], acked, window, frameSize);
  }

  lemma {:induction false} BytesStep(frames: seq<TxFrame>, f: TxFrame)
    ensures Bytes(frames + [f]) == Bytes(frames) + f.bytes
  {
    if frames == [] {
      assert frames + [f] == [f];
    } else {
      BytesStep(frames[1..], f);
      assert (frames + [f])[1..] == frames[1..] + [f];
    }
  }

  /** No credit is wasted: without a single acknowledgement a sender can commit
      as many full frames as the packet memory holds. */
  lemma {:induction false} CreditIsUsable(frameSize: nat, n: nat) returns (events: seq<Event>, s: State)
    requires 0 < frameSize && n * frameSize <= 0x8_0000
    ensures Reaches(events, Window(frameSize), frameSize, s, 0)
    ensures s.stage.Idle? && s.drained == 0 && |s.frames| == n && Bytes(s.frames) == n * frameSize
  {
    var w := Window(frameSize);
    if n == 0 {
      events, s := [], INITIAL;
      return;
    }
    Arith.MulDistributes(n - 1, 1, frameSize);
    var before, p := CreditIsUsable(frameSize, n - 1);
    HeldBackIffFull(before, frameSize, p, 0);
    events, s := before, p;
    events, s := Next(events, w, frameSize, s, CheckPasses);
    events, s := Next(events, w, frameSize, s, BufferArrives);
    events, s := Next(events, w, frameSize, s, TakeSequence);
    events, s := Next(events, w, frameSize, s, Commit(frameSize));
    BytesStep(p.frames, s.frames[n - 1]);
  }

  lemma Next(events: seq<Event>, window: nat, frameSize: nat, s: State, e: Event) returns (more: seq<Event>, t: State)
    requires Reaches(events, window, frameSize, s, 0) && Enabled(s, e, 0, window, frameSize) && !e.Ack?
    ensures t == Step(s, e) && Reaches(more, window, frameSize, t, 0)
  {
    Extends(events, window, frameSize, s, 0, e);
    more, t := events + [e], Step(s, e);
  }

  /** From every reachable state the device can drain all frames and acknowledge
      them at once. */
  lemma {:induction false} CanDrain(events: seq<Event>, window: nat, frameSize: nat, s: State, acked: nat)
    returns (more: seq<Event>, t: State)
    requires window < TWO32 && Reaches(events, window, frameSize, s, acked)
    ensures Reaches(more, window, frameSize, t, |s.frames|)
    ensures t.stage == s.stage && t.frames == s.frames && t.drained == |s.frames|
    decreases |s.frames| - s.drained
  {
    RunsKeepInv(events, window, frameSize, s, acked);
    if s.drained < |s.frames| {
      Extends(events, window, frameSize, s, acked, Drain);
      more, t := CanDrain(events + [Drain], window, frameSize, Step(s, Drain), acked);
    } else {
      Extends(events, window, frameSize, s, acked, Ack(|s.frames|));
      more, t := events + [Ack(|s.frames|)], Step(s, Ack(|s.frames|));
    }
  }
}
