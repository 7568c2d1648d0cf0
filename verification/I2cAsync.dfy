/** The interrupt-driven I2C transfer machine of the firmware. */
module I2cAsync {

  type Byte = x: int | 0 <= x < 256

  const BUF_SIZE: nat := 17

  datatype Phase = Idle | ControlByteSent | Data | LastByte | DataReady

  datatype Dir = Reading | Writing

  /** Commands written to the bus controller. */
  datatype Cmd =
    | Start(control: Byte)
    | ReadByte(nack: bool, stop: bool)
    | WriteByte(value: Byte, stop: bool)
    | Stop

  /** The globals of the driver, and the commands given to the controller. */
  datatype Machine = Machine(
    buf: seq<Byte>, ptr: nat, len: nat, phase: Phase, dir: Dir, irqEnabled: bool, cmds: seq<Cmd>)

  /** What an interrupt finds in the controller's registers. */
  datatype Irq = Irq(arbitrationLost: bool, inProgress: bool, data: Byte)

  /** A read or write of the transfer buffer; behind its end lies other memory. */
  function BufferAt(m: Machine, beyond: nat -> Byte): Byte {
    if m.ptr < |m.buf| then m.buf[m.ptr] else beyond(m.ptr)
  }

  function StoreByte(m: Machine, b: Byte): Machine {
    m.(buf := if m.ptr < |m.buf| then m.buf[m.ptr := b] else m.buf, ptr := m.ptr + 1)
  }

  function Fail(m: Machine): Machine {
    m.(phase := Idle, irqEnabled := false, cmds := m.cmds + [Stop])
  }

  /** The count of bytes left is an 8-bit variable. */
  function CountDown(m: Machine): Machine {
    var left := (m.len - 1) % 256;
    m.(len := left, phase := if left == 0 then LastByte else Data)
  }

  /** The interrupt handler. */
  function OnIrq(m: Machine, irq: Irq, beyond: nat -> Byte): (r: Machine)
    ensures |r.buf| == |m.buf| && m.cmds <= r.cmds
  {
    if irq.arbitrationLost then Fail(m)
    else if irq.inProgress then m
    else match m.phase
      case Idle => Fail(m)
      case ControlByteSent | Data =>
        (match m.dir
         case Reading =>
           var s := if m.phase.Data? then StoreByte(m, irq.data) else m;
           CountDown(s.(cmds := s.cmds + [ReadByte(!(m.len > 1), !(m.len > 1))]))
         case Writing =>
           CountDown(m.(ptr := m.ptr + 1, cmds := m.cmds + [WriteByte(BufferAt(m, beyond), !(m.len > 1))])))
      case LastByte =>
        (match m.dir
         case Reading => StoreByte(m, irq.data).(phase := DataReady, irqEnabled := false)
         case Writing => m.(phase := Idle, irqEnabled := false))
      case DataReady => m
  }

  function ControlByte(addr: Byte, dir: Dir): Byte {
    (addr * 2 + if dir.Reading? then 1 else 0) % 256
  }

  /** The machine once a transfer has been started. */
  function Started(m: Machine, addr: Byte, dir: Dir, len: nat, buf: seq<Byte>): Machine {
    Machine(buf, 0, len, ControlByteSent, dir, true, m.cmds + [Start(ControlByte(addr, dir))])
  }

  // -------------------------------------------------------------------
  // Reading: every reachable state of a transfer of `n` bytes.
  // -------------------------------------------------------------------

  /** The commands of a read that has asked for `k` of `n` bytes: only the
      request for the last one carries NACK and STOP. */
  function ReadRequests(k: nat, n: nat): seq<Cmd> {
    seq(k, i => ReadByte(i == n - 1, i == n - 1))
  }

  /** The first `k` bytes a slave sends. */
  function Sent(slave: nat -> Byte, k: nat): (r: seq<Byte>)
    ensures |r| == k
  {
    seq(k, i requires 0 <= i => slave(i))
  }

  ghost predicate ReadInv(m: Machine, n: nat, slave: nat -> Byte, before: seq<Cmd>) {
    && |m.buf| == BUF_SIZE && 1 <= n <= BUF_SIZE && m.dir.Reading?
    && 0 <= m.len <= n
    && m.cmds == before + ReadRequests(n - m.len, n)
    && (match m.phase
        case ControlByteSent => m.len == n && m.ptr == 0 && m.irqEnabled
        case Data => 1 <= m.len < n && m.ptr == n - m.len - 1 && m.irqEnabled
        case LastByte => m.len == 0 && m.ptr == n - 1 && m.irqEnabled
        case DataReady => m.len == 0 && m.ptr == n && !m.irqEnabled
        case Idle => false)
    && m.ptr <= BUF_SIZE && m.buf[..m.ptr] == Sent(slave, m.ptr)
  }

  /** An interrupt of a read in good order: once a byte has been asked for and
      the transfer is no longer in progress, its value is in the data register. */
  ghost predicate ReadIrq(m: Machine, n: nat, slave: nat -> Byte, irq: Irq) {
    !irq.arbitrationLost && m.irqEnabled && (!irq.inProgress && m.len < n ==> irq.data == slave(n - m.len - 1))
  }

  lemma ReadStep(m: Machine, n: nat, slave: nat -> Byte, before: seq<Cmd>, irq: Irq, beyond: nat -> Byte)
    requires ReadInv(m, n, slave, before) && ReadIrq(m, n, slave, irq)
    ensures ReadInv(OnIrq(m, irq, beyond), n, slave, before)
    ensures irq.inProgress ==> OnIrq(m, irq, beyond) == m
    ensures !irq.inProgress ==> ReadRemaining(OnIrq(m, irq, beyond)) == ReadRemaining(m) - 1
  {
    var r := OnIrq(m, irq, beyond);
    if !irq.inProgress {
      if m.phase.Data? || m.phase.LastByte? {
        assert r.buf[..m.ptr + 1] == m.buf[..m.ptr] + [irq.data] == Sent(slave, m.ptr + 1);
      }
      if !m.phase.LastByte? {
        var k := n - m.len;
        assert ReadRequests(k + 1, n) == ReadRequests(k, n) + [ReadByte(k == n - 1, k == n - 1)];
      }
    }
  }

  /** Interrupts still needed, besides those that find the bus in progress. */
  function ReadRemaining(m: Machine): nat {
    if m.phase.DataReady? then 0 else m.len + 1
  }

  /** A run of interrupts. */
  function Run(m: Machine, irqs: seq<Irq>, beyond: nat -> Byte): Machine
    decreases |irqs|
  {
    if irqs == [] then m else Run(OnIrq(m, irqs[0], beyond), irqs[1..], beyond)
  }

  ghost predicate ReadRun(m: Machine, n: nat, slave: nat -> Byte, irqs: seq<Irq>, beyond: nat -> Byte)
    decreases |irqs|
  {
    irqs == [] || (ReadIrq(m, n, slave, irqs[0]) && ReadRun(OnIrq(m, irqs[0], beyond), n, slave, irqs[1..], beyond))
  }

  function Completions(irqs: seq<Irq>): nat {
    if irqs == [] then 0 else (if irqs[0].inProgress then 0 else 1) + Completions(irqs[1..])
  }

  /** Over every run of interrupts, however they interleave with the bus being
      in progress: the pointer stays in the buffer, STOP and NACK come only with
      the last byte, and after n + 1 completions the buffer holds exactly the
      slave's n bytes. */
  lemma {:induction false} ReadTransfers(
    m: Machine, n: nat, slave: nat -> Byte, before: seq<Cmd>, irqs: seq<Irq>, beyond: nat -> Byte)
    requires ReadInv(m, n, slave, before) && ReadRun(m, n, slave, irqs, beyond)
    ensures var r := Run(m, irqs, beyond);
            && ReadInv(r, n, slave, before)
            && ReadRemaining(r) == ReadRemaining(m) - Completions(irqs)
            && (r.phase.DataReady? ==>
                  && r.buf[..n] == Sent(slave, n) && r.ptr == n && |r.cmds| == |before| + n
                  && forall i | |before| <= i < |r.cmds| :: r.cmds[i] == ReadByte(i == |r.cmds| - 1, i == |r.cmds| - 1))
    decreases |irqs|
  {
    if irqs != [] {
      ReadStep(m, n, slave, before, irqs[0], beyond);
      ReadTransfers(OnIrq(m, irqs[0], beyond), n, slave, before, irqs[1..], beyond);
    }
  }

  // -------------------------------------------------------------------
  // Writing.
  // -------------------------------------------------------------------

  function WriteRequests(data: seq<Byte>, k: nat): seq<Cmd>
    requires k <= |data|
  {
    seq(k, i requires 0 <= i < k => WriteByte(data[i], i == |data| - 1))
  }

  ghost predicate WriteInv(m: Machine, data: seq<Byte>, before: seq<Cmd>) {
    && |m.buf| == BUF_SIZE && 1 <= |data| <= BUF_SIZE && m.dir.Writing?
    && m.buf[..|data|] == data
    && 0 <= m.len <= |data| && m.ptr == |data| - m.len
    && m.cmds == before + WriteRequests(data, m.ptr)
    && match m.phase
       case ControlByteSent => m.len == |data| && m.irqEnabled
       case Data => 1 <= m.len < |data| && m.irqEnabled
       case LastByte => m.len == 0 && m.irqEnabled
       case Idle => m.len == 0 && !m.irqEnabled
       case DataReady => false
  }

  function WriteRemaining(m: Machine): nat {
    if m.phase.Idle? then 0 else m.len + 1
  }

  lemma WriteStep(m: Machine, data: seq<Byte>, before: seq<Cmd>, irq: Irq, beyond: nat -> Byte)
    requires WriteInv(m, data, before) && m.irqEnabled && !irq.arbitrationLost
    ensures WriteInv(OnIrq(m, irq, beyond), data, before)
    ensures irq.inProgress ==> OnIrq(m, irq, beyond) == m
    ensures !irq.inProgress ==> WriteRemaining(OnIrq(m, irq, beyond)) == WriteRemaining(m) - 1
  {
    if !irq.inProgress && !m.phase.LastByte? {
      var k := m.ptr;
      assert m.buf[k] == data[k];
      assert WriteRequests(data, k + 1) == WriteRequests(data, k) + [WriteByte(data[k], k == |data| - 1)];
    }
  }

  ghost predicate WriteRun(m: Machine, irqs: seq<Irq>, beyond: nat -> Byte)
    decreases |irqs|
  {
    irqs == [] || (m.irqEnabled && !irqs[0].arbitrationLost && WriteRun(OnIrq(m, irqs[0], beyond), irqs[1..], beyond))
  }

  /** A write sends exactly the buffer, in order, with STOP only on the last
      byte, and is idle again after n + 1 completions. */
  lemma {:induction false} WriteTransfers(
    m: Machine, data: seq<Byte>, before: seq<Cmd>, irqs: seq<Irq>, beyond: nat -> Byte)
    requires WriteInv(m, data, before) && WriteRun(m, irqs, beyond)
    ensures var r := Run(m, irqs, beyond);
            && WriteInv(r, data, before)
            && WriteRemaining(r) == WriteRemaining(m) - Completions(irqs)
            && (r.phase.Idle? ==>
                  && |r.cmds| == |before| + |data|
                  && forall i | 0 <= i < |data| :: r.cmds[|before| + i] == WriteByte(data[i], i == |data| - 1))
    decreases |irqs|
  {
    if irqs != [] {
      WriteStep(m, data, before, irqs[0], beyond);
      WriteTransfers(OnIrq(m, irqs[0], beyond), data, before, irqs[1..], beyond);
    }
  }

  /** Arbitration loss ends any transfer, idle and with a STOP. */
  lemma ArbitrationLossStops(m: Machine, data: Byte, busy: bool, beyond: nat -> Byte)
    ensures var r := OnIrq(m, Irq(true, busy, data), beyond);
            r.phase.Idle? && !r.irqEnabled && r.cmds == m.cmds + [Stop] && r.buf == m.buf
  {
  }

  /** The handler keeps a started write inside its buffer, and stops it with its
      last byte, exactly when there is a byte to write: an empty one sends a
      first byte with STOP and then counts down from 255. */
  lemma EmptyWriteRunsOn(m: Machine, data: Byte, beyond: nat -> Byte)
    requires |m.buf| == BUF_SIZE && m.phase.ControlByteSent? && m.dir.Writing? && m.ptr == 0 && m.len <= BUF_SIZE
    ensures var r := OnIrq(m, Irq(false, false, data), beyond);
            && (r.phase.LastByte? || (r.phase.Data? && r.ptr + r.len <= BUF_SIZE) <==> m.len > 0)
            && (m.len == 0 ==> r.phase.Data? && r.len == 255 && r.cmds == m.cmds + [WriteByte(m.buf[0], true)])
  {
  }

  lemma {:induction false} RunsOn(m: Machine, irqs: seq<Irq>, beyond: nat -> Byte)
    requires m.phase.Data? && m.dir.Writing? && |irqs| < m.len < 256
    requires forall i | 0 <= i < |irqs| :: !irqs[i].arbitrationLost && !irqs[i].inProgress
    ensures Run(m, irqs, beyond).ptr == m.ptr + |irqs|
    decreases |irqs|
  {
    if irqs != [] {
      RunsOn(OnIrq(m, irqs[0], beyond), irqs[1..], beyond);
    }
  }

  /** So an empty write, which the driver accepts, walks out of the buffer: after
      any k completions, up to 255, it has fetched k bytes. */
  lemma {:induction false} EmptyWriteLeavesBuffer(m: Machine, addr: Byte, irqs: seq<Irq>, beyond: nat -> Byte)
    requires |m.buf| == BUF_SIZE && 0 < |irqs| < 256
    requires forall i | 0 <= i < |irqs| :: !irqs[i].arbitrationLost && !irqs[i].inProgress
    ensures Run(Started(m, addr, Writing, 0, m.buf), irqs, beyond).ptr == |irqs|
  {
    RunsOn(OnIrq(Started(m, addr, Writing, 0, m.buf), irqs[0], beyond), irqs[1..], beyond);
  }

  // -------------------------------------------------------------------
  // Interrupts during the start of a transfer, were they delivered there. The
  // driver enables interrupts, issues the start command, and only then leaves
  // the idle state.
  // -------------------------------------------------------------------

  /** A run of interrupts, of which the controller delivers those it may. */
  function Deliver(m: Machine, irqs: seq<Irq>, beyond: nat -> Byte): Machine
    decreases |irqs|
  {
    if irqs == [] then m
    else Deliver(if m.irqEnabled then OnIrq(m, irqs[0], beyond) else m, irqs[1..], beyond)
  }

  /** A start with interrupts before and after the start command. */
  function StartedAmid(m: Machine, addr: Byte, dir: Dir, len: nat, buf: seq<Byte>,
                       early: seq<Irq>, late: seq<Irq>, beyond: nat -> Byte): Machine
  {
    var ready := Deliver(m.(buf := buf, ptr := 0, len := len, dir := dir, irqEnabled := true), early, beyond);
    var issued := ready.(cmds := ready.cmds + [Start(ControlByte(addr, dir))]);
    Deliver(issued, late, beyond).(phase := ControlByteSent)
  }

  /** The handler finds the transfer in progress and leaves it alone. */
  predicate Harmless(irqs: seq<Irq>) {
    forall i | 0 <= i < |irqs| :: irqs[i].inProgress && !irqs[i].arbitrationLost
  }

  lemma {:induction false} DeliveredWhileIdle(m: Machine, irqs: seq<Irq>, beyond: nat -> Byte)
    requires m.phase.Idle? && m.irqEnabled
    ensures Harmless(irqs) ==> Deliver(m, irqs, beyond) == m
    ensures !Harmless(irqs) ==> Deliver(m, irqs, beyond) == Fail(m)
    decreases |irqs|
  {
    if irqs != [] {
      var r := OnIrq(m, irqs[0], beyond);
      assert irqs == [irqs[0]] + irqs[1..];
      assert Harmless(irqs) <==> irqs[0].inProgress && !irqs[0].arbitrationLost && Harmless(irqs[1..]);
      if r == m {
        DeliveredWhileIdle(m, irqs[1..], beyond);
      } else {
        DisabledStays(r, irqs[1..], beyond);
      }
    }
  }

  /** Without interrupts the machine stays as it is, whatever happens on the bus. */
  lemma {:induction false} DisabledStays(m: Machine, irqs: seq<Irq>, beyond: nat -> Byte)
    requires !m.irqEnabled
    ensures Deliver(m, irqs, beyond) == m
    decreases |irqs|
  {
    if irqs != [] {
      DisabledStays(m, irqs[1..], beyond);
    }
  }

  /** Losing the arbitration ends a transfer at whatever point: one STOP is issued,
      the bytes received so far stay, no later interrupt has any effect, and the
      machine is idle and so accepts the next transfer. */
  lemma ArbitrationLossEnds(m: Machine, lost: Irq, later: seq<Irq>, beyond: nat -> Byte)
    requires m.irqEnabled && lost.arbitrationLost
    ensures var r := Deliver(m, [lost] + later, beyond);
            && r.phase.Idle? && !r.irqEnabled && r.cmds == m.cmds + [Stop] && r.buf == m.buf && r.ptr == m.ptr
  {
    ArbitrationLossStops(m, lost.data, lost.inProgress, beyond);
    assert ([lost] + later)[1..] == later;
    DisabledStays(OnIrq(m, lost, beyond), later, beyond);
  }

  /** A start amid interrupts is the atomic one exactly when all of them are
      harmless. Otherwise interrupts are off and the state says that the control
      byte was sent: no interrupt is delivered any more, and no transfer is
      accepted, since the machine is not idle. */
  lemma StartIsAtomicIff(m: Machine, addr: Byte, dir: Dir, len: nat, buf: seq<Byte>,
                         early: seq<Irq>, late: seq<Irq>, beyond: nat -> Byte, later: seq<Irq>)
    requires m.phase.Idle?
    ensures var r := StartedAmid(m, addr, dir, len, buf, early, late, beyond);
            && (r == Started(m, addr, dir, len, buf) <==> Harmless(early) && Harmless(late))
            && (!(Harmless(early) && Harmless(late)) ==>
                  !r.irqEnabled && r.phase.ControlByteSent? && Deliver(r, later, beyond) == r)
  {
    hide Deliver, Harmless;
    var open := m.(buf := buf, ptr := 0, len := len, dir := dir, irqEnabled := true);
    DeliveredWhileIdle(open, early, beyond);
    var ready := Deliver(open, early, beyond);
    var issued := ready.(cmds := ready.cmds + [Start(ControlByte(addr, dir))]);
    if ready.irqEnabled {
      DeliveredWhileIdle(issued, late, beyond);
    } else {
      DisabledStays(issued, late, beyond);
    }
    var r := StartedAmid(m, addr, dir, len, buf, early, late, beyond);
    if !r.irqEnabled {
      DisabledStays(r, later, beyond);
    }
  }

  /** A dispatcher that is polled between the calls delivers no interrupt inside
      one: every start is then the atomic one. */
  lemma PolledStartIsAtomic(m: Machine, addr: Byte, dir: Dir, len: nat, buf: seq<Byte>, beyond: nat -> Byte)
    requires m.phase.Idle?
    ensures StartedAmid(m, addr, dir, len, buf, [], [], beyond) == Started(m, addr, dir, len, buf)
  {
    StartIsAtomicIff(m, addr, dir, len, buf, [], [], beyond, []);
  }

  class I2c {
    var buf: array<Byte>
    var ptr: nat
    var len: nat
    var phase: Phase
    var dir: Dir
    var irqEnabled: bool
    var cmds: seq<Cmd>
    const beyond: nat -> Byte

    ghost predicate Valid()
      reads this
    {
      buf.Length == BUF_SIZE
    }

    ghost function View(): Machine
      reads this, buf
    {
      Machine(buf[..], ptr, len, phase, dir, irqEnabled, cmds)
    }

    constructor (beyond: nat -> Byte)
      ensures Valid() && fresh(buf) && phase.Idle? && !irqEnabled && cmds == [] && ptr == 0 && len == 0
      ensures this.beyond == beyond && buf[..] == seq(17, _ => 0)
    {
      buf := new Byte[BUF_SIZE](_ => 0);
      ptr, len, phase, dir, irqEnabled, cmds := 0, 0, Idle, Reading, false, [];
      this.beyond := beyond;
    }

    /** Starts a read unless a transfer is under way or the length is too large.
        A read of nothing succeeds at once. */
    method AsyncRead(addr: Byte, n: nat) returns (ok: bool)
      requires Valid()
      modifies this
      ensures Valid() && buf == old(buf)
      ensures ok <==> old(phase).Idle? && n <= 17
      ensures !ok || n == 0 ==> View() == old(View())
      ensures ok && n > 0 ==> View() == Started(old(View()), addr, Reading, n, old(buf[..]))
      ensures ok && n > 0 ==>
                && |cmds| == |old(cmds)| + 1 && cmds[..|old(cmds)|] == old(cmds)
                && cmds[|old(cmds)|].Start? && cmds[|old(cmds)|].control == 2 * (addr % 128) + 1
      ensures ok && n > 0 ==> forall slave :: ReadInv(View(), n, slave, cmds)
    {
      if !phase.Idle? {
        return false;
      }
      if n == 0 {
        return true;
      }
      if n > BUF_SIZE {
        return false;
      }
      irqEnabled := false;
      len, dir, ptr := n, Reading, 0;
      irqEnabled := true;
      cmds := cmds + [Start(ControlByte(addr, Reading))];
      phase := ControlByteSent;
      assert buf[..0] == [];
      ok := true;
    }

    method CopyIn(data: seq<Byte>)
      requires Valid() && |data| <= BUF_SIZE
      modifies buf
      ensures buf[..] == data + old(buf[|data|..])
    {
      for i := 0 to |data|
        invariant forall j | 0 <= j < i :: buf[j] == data[j]
        invariant forall j | i <= j < buf.Length :: buf[j] == old(buf[j])
      {
        buf[i] := data[i];
      }
    }

    /** Starts a write of a copy of the data, with the same refusals. */
    method AsyncWrite(addr: Byte, data: seq<Byte>) returns (ok: bool)
      requires Valid()
      modifies this, buf
      ensures Valid() && buf == old(buf)
      ensures ok <==> old(phase).Idle? && |data| <= 17
      ensures !ok ==> View() == old(View())
      ensures ok ==> buf[..] == data + old(buf[|data|..])
                     && View() == Started(old(View()), addr, Writing, |data|, buf[..])
      ensures ok ==>
                && |cmds| == |old(cmds)| + 1 && cmds[..|old(cmds)|] == old(cmds)
                && cmds[|old(cmds)|].Start? && cmds[|old(cmds)|].control == 2 * (addr % 128)
      ensures ok && |data| > 0 ==> WriteInv(View(), data, cmds)
    {
      if !phase.Idle? || |data| > BUF_SIZE {
        return false;
      }
      irqEnabled := false;
      CopyIn(data);
      len, dir, ptr := |data|, Writing, 0;
      irqEnabled := true;
      cmds := cmds + [Start(ControlByte(addr, Writing))];
      phase := ControlByteSent;
      assert buf[..][..|data|] == data;
      ok := true;
    }

    /** Stores a received byte; one behind the buffer would hit other memory. */
    method StoreData(b: Byte)
      requires Valid()
      modifies `ptr, buf
      ensures Valid() && View() == StoreByte(old(View()), b)
    {
      if ptr < buf.Length {
        buf[ptr] := b;
      }
      ptr := ptr + 1;
    }

    /** The control byte or a data byte is through: on to the next byte. */
    method NextByte(data: Byte)
      requires Valid() && (phase.ControlByteSent? || phase.Data?)
      modifies this, buf
      ensures Valid() && buf == old(buf)
      ensures View() == OnIrq(old(View()), Irq(false, false, data), beyond)
    {
      if dir.Reading? {
        if phase.Data? {
          StoreData(data);
        }
        if len > 1 {
          cmds := cmds + [ReadByte(false, false)];
        } else {
          cmds := cmds + [ReadByte(true, true)];
        }
      } else {
        var b := if ptr < buf.Length then buf[ptr] else beyond(ptr);
        ptr := ptr + 1;
        cmds := cmds + [WriteByte(b, !(len > 1))];
      }
      len := (len - 1) % 256;
      phase := if len == 0 then LastByte else Data;
    }

    method IrqHandler(irq: Irq)
      requires Valid()
      modifies this, buf
      ensures Valid() && buf == old(buf)
      ensures View() == OnIrq(old(View()), irq, beyond)
    {
      if irq.arbitrationLost {
        AsyncErr();
      } else if irq.inProgress {
        return;
      } else if phase.Idle? {
        AsyncErr();
      } else if phase.ControlByteSent? || phase.Data? {
        NextByte(irq.data);
      } else if phase.LastByte? {
        if dir.Reading? {
          StoreData(irq.data);
          phase := DataReady;
        } else {
          phase := Idle;
        }
        irqEnabled := false;
      }
    }

    method AsyncErr()
      modifies `phase, `irqEnabled, `cmds
      ensures phase.Idle? && !irqEnabled && cmds == old(cmds) + [Stop]
    {
      phase, irqEnabled := Idle, false;
      cmds := cmds + [Stop];
    }

    /** Hands a completed read to the caller, once. */
    method AsyncDataReady(dst: array<Byte>) returns (ok: bool)
      requires Valid() && ptr <= BUF_SIZE && ptr <= dst.Length && dst != buf
      modifies `phase, dst
      ensures ok <==> old(phase).DataReady?
      ensures ok ==> phase.Idle? && dst[..ptr] == buf[..ptr] && dst[ptr..] == old(dst[ptr..])
      ensures !ok ==> phase == old(phase) && dst[..] == old(dst[..])
    {
      if phase.DataReady? {
        phase := Idle;
        for i := 0 to ptr
          modifies dst
          invariant dst[..i] == buf[..i] && dst[i..] == old(dst[i..])
        {
          dst[i] := buf[i];
        }
        return true;
      }
      ok := false;
    }
  }
}
