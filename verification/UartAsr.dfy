/** The ASR UART driver of one port: interrupt callback, read loops, and reference-counted open and
    close over a heap-allocated ring buffer. */
module UartAsr {
  import opened Hdf
  import opened AsrRing
  import L = UartLifecycle

  /** Outcome of a read. `Crash` is a dereference of the missing buffer; `Waiting` is a blocking read
      that has used up the bytes the schedule provides and still lacks some. */
  datatype ReadResult = Done(data: seq<byte>) | Failed(code: int) | Crash(part: seq<byte>) | Waiting(part: seq<byte>)
  {
    function Data(): seq<byte> {
      match this
      case Done(data) => data
      case Failed(_) => []
      case Crash(part) => part
      case Waiting(part) => part
    }
  }

  /** The bytes of a schedule of interrupts, in order. */
  function Bytes(irqs: seq<seq<byte>>): seq<byte> {
    if irqs == [] then [] else Bytes(irqs[..|irqs| - 1]) + irqs[|irqs| - 1]
  }

  method Calloc() returns (buf: array<byte>)
    ensures fresh(buf) && buf.Length == UART_RX_BUF_LEN && buf[..] == ZEROS
  {
    buf := new byte[UART_RX_BUF_LEN](_ => 0);
    assert buf[..] == ZEROS;
  }

  class AsrUart {
    var count: int
    var state: L.State
    var rdBlock: bool
    var rxBuf: array?<byte>
    var txMutex: bool
    var rxMutex: bool
    var rxHead: nat
    var rxTail: nat

    // the lifecycle counters and the current session, for specification
    ghost var setupOk: bool
    ghost var allocs: nat
    ghost var frees: nat
    ghost var base: Session
    ghost var events: seq<Event>
    ghost var session: Session

    ghost predicate Valid()
      reads this, rxBuf
    {
      L.Sound(Port()) && InSession()
    }

    /** While the buffer exists, the concrete ring is the state its events lead to from a zeroed buffer
        at the indices the last session left. */
    ghost predicate InSession()
      reads this, rxBuf
    {
      && rxHead < UART_RX_BUF_LEN && rxTail < UART_RX_BUF_LEN
      && (rxBuf != null ==>
            && rxBuf.Length == UART_RX_BUF_LEN
            && Shaped(base) && base == Opened(ZEROS, base.head, base.tail)
            && Legal(base, events) && session == Replay(base, events)
            && session.buf == rxBuf[..] && session.head == rxHead && session.tail == rxTail)
    }

    ghost function Port(): L.Port
      reads this
    {
      L.Port(state, count, rxBuf != null, txMutex, rxMutex, setupOk, allocs, frees)
    }

    /** A port as attached at start-up, its ring indices zero. */
    constructor ()
      ensures Valid() && Port() == L.ATTACHED && rxHead == rxTail == 0 && !rdBlock
    {
      state, count, rdBlock := L.NotOpened, 0, false;
      rxBuf, txMutex, rxMutex, rxHead, rxTail := null, false, false, 0, 0;
      setupOk, allocs, frees := false, 0, 0;
      session := Opened([], 0, 0);
      base, events := session, [];
    }

    /** `outcome` says which step of the set-up fails, if the port is closed; `early` are the bytes that
        arrive between the assignment of the buffer and the end of the set-up. A set-up that succeeds
        starts a session over a zeroed buffer at the indices the last session left; one whose configuration
        fails loses the early bytes and still moves the head. */
    method Init(outcome: L.Setup, early: seq<byte>) returns (ret: int)
      requires Valid()
      modifies `state, `count, `setupOk, `allocs, `frees, `txMutex, `rxMutex, `rxBuf
      modifies `rxHead, `base, `events, `session
      ensures Valid()
      ensures Port() == L.Init(old(Port()), outcome) && ret == L.InitResult(old(Port()), outcome)
      ensures ret == HDF_SUCCESS <==> state == L.Useable
      ensures old(state) == L.NotOpened && outcome == L.SetupOk ==>
        && fresh(rxBuf) && base == Opened(ZEROS, old(rxHead), rxTail)
        && session.received == early && session.delivered == []
      ensures rxHead ==
        if old(state) == L.NotOpened && (outcome == L.SetupOk || outcome == L.ConfigFails)
        then Slot(old(rxHead) + |early|) else old(rxHead)
      ensures old(state) != L.NotOpened ==>
        rxBuf == old(rxBuf) && events == old(events) && session == old(session) && base == old(base)
    {
      if state == L.NotOpened {
        ret := SetUp(outcome, early);
        if ret != HDF_SUCCESS {
          return ret;
        }
      }
      state := L.Useable;
      count := count + 1;
      return HDF_SUCCESS;
    }

    /** The part of `Init` that runs on a closed port. */
    method SetUp(outcome: L.Setup, early: seq<byte>) returns (ret: int)
      requires state == L.NotOpened && rxBuf == null && InSession()
      modifies `state, `setupOk, `allocs, `frees, `txMutex, `rxMutex, `rxBuf, `rxHead, `base, `events, `session
      ensures InSession()
      ensures Port() == L.SetUp(old(Port()), outcome) && ret == L.InitResult(old(Port()), outcome)
      ensures ret == HDF_SUCCESS ==>
        && fresh(rxBuf) && base == Opened(ZEROS, old(rxHead), rxTail)
        && session.received == early && session.delivered == []
      ensures ret != HDF_SUCCESS ==> rxBuf == null
      ensures rxHead ==
        if outcome == L.SetupOk || outcome == L.ConfigFails then Slot(old(rxHead) + |early|) else old(rxHead)
    {
      hide Replay;
      hide Legal;
      hide Slot;
      state := L.Opening;
      setupOk := outcome == L.SetupOk;
      if outcome == L.NoMemory {
        return HDF_ERR_MALLOC_FAIL;
      }
      var ptxBuf := Calloc();
      allocs := allocs + 1;
      ret := SemInit(outcome);
      if ret != HDF_SUCCESS {
        SemDeinit();
        return HDF_FAILURE;
      }
      ret := Configure(ptxBuf, outcome, early);
    }

    /** The end of the set-up: from the assignment of the buffer on, interrupts store into it. */
    method Configure(ptxBuf: array<byte>, outcome: L.Setup, early: seq<byte>) returns (ret: int)
      requires ptxBuf.Length == UART_RX_BUF_LEN && ptxBuf[..] == ZEROS && rxBuf == null && InSession()
      modifies `frees, `txMutex, `rxMutex, `rxBuf, `rxHead, `base, `events, `session, ptxBuf
      ensures InSession() && rxHead == Slot(old(rxHead) + |early|)
      ensures ret == if outcome == L.ConfigFails then HDF_FAILURE else HDF_SUCCESS
      ensures ret == HDF_SUCCESS ==>
        && rxBuf == ptxBuf && base == Opened(ZEROS, old(rxHead), rxTail)
        && session.received == early && session.delivered == []
        && frees == old(frees) && txMutex == old(txMutex) && rxMutex == old(rxMutex)
      ensures ret != HDF_SUCCESS ==> rxBuf == null && !txMutex && !rxMutex && frees == old(frees) + 1
    {
      hide Replay;
      hide Legal;
      hide Slot;
      rxBuf := ptxBuf;
      base := Opened(ZEROS, rxHead, rxTail);
      session, events := base, [];
      NoEvents(base);
      Interrupts(early);
      if outcome == L.ConfigFails {
        SemDeinit();
        frees := frees + 1;
        rxBuf := null;
        return HDF_FAILURE;
      }
      return HDF_SUCCESS;
    }

    method SemInit(outcome: L.Setup) returns (ret: int)
      modifies `txMutex, `rxMutex
      ensures ret == if outcome == L.TxMutexFails || outcome == L.RxMutexFails then HDF_FAILURE else HDF_SUCCESS
      ensures ret == HDF_SUCCESS ==> txMutex && rxMutex
    {
      if outcome == L.TxMutexFails {
        return HDF_FAILURE;
      }
      txMutex := true;
      if outcome == L.RxMutexFails {
        return HDF_FAILURE;
      }
      rxMutex := true;
      return HDF_SUCCESS;
    }

    method SemDeinit()
      modifies `txMutex, `rxMutex
      ensures !txMutex && !rxMutex
    {
      txMutex := false;
      rxMutex := false;
    }

    method Deinit() returns (ret: int)
      requires Valid()
      modifies `state, `count, `frees, `txMutex, `rxMutex, `rxBuf
      ensures Valid() && ret == HDF_SUCCESS
      ensures Port() == L.Deinit(old(Port()))
      ensures old(count) != 1 ==> rxBuf == old(rxBuf)
    {
      count := count - 1;
      if count != 0 {
        return HDF_SUCCESS;
      }
      SemDeinit();
      if rxBuf != null {
        frees := frees + 1;
        rxBuf := null;
      }
      state := L.NotOpened;
      return HDF_SUCCESS;
    }

    /** Frees the driver data if the port is closed, when nothing else is left to free. */
    method Detach() returns (freed: bool)
      requires Valid()
      ensures freed <==> state == L.NotOpened
      ensures freed ==> rxBuf == null && !txMutex && !rxMutex
    {
      if state != L.NotOpened {
        return false;
      }
      return true;
    }

    /** Interrupt: store one byte, or drop it when there is no buffer. */
    method Callback(data: byte)
      requires InSession()
      modifies `rxHead, `session, `events, rxBuf
      ensures InSession()
      ensures rxBuf == null ==> rxHead == old(rxHead) && session == old(session) && events == old(events)
      ensures rxBuf != null ==>
        session == Apply(old(session), Arrived(data)) && events == old(events) + [Arrived(data)]
    {
      hide Replay;
      hide Legal;
      if rxBuf != null {
        rxBuf[rxHead] := data;
        rxHead := rxHead + 1;
        rxHead := rxHead % UART_RX_BUF_LEN;
        ReplaySnoc(base, events, Arrived(data));
        session := Apply(session, Arrived(data));
        events := events + [Arrived(data)];
      }
    }

    /** A burst of interrupts at one point of the reader. */
    method Interrupts(burst: seq<byte>)
      requires InSession()
      modifies `rxHead, `session, `events, rxBuf
      ensures InSession()
      ensures rxBuf == null ==> rxHead == old(rxHead) && session == old(session) && events == old(events)
      ensures rxBuf != null ==>
        && rxHead == Slot(old(rxHead) + |burst|)
        && session.received == old(session.received) + burst
        && session.delivered == old(session.delivered) && session.ready == old(session.ready)
    {
      hide Replay;
      hide Legal;
      for i := 0 to |burst|
        invariant InSession()
        invariant rxBuf == null ==> rxHead == old(rxHead) && session == old(session) && events == old(events)
        invariant rxBuf != null ==>
          && rxHead == Slot(old(rxHead) + i)
          && session.received == old(session.received) + burst[..i]
          && session.delivered == old(session.delivered) && session.ready == old(session.ready)
      {
        Callback(burst[i]);
        SlotSteps(old(rxHead) + i);
      }
    }

    method TestEmpty() returns (empty: bool)
      requires Valid()
      modifies `session, `events
      ensures Valid() && (empty <==> rxHead == rxTail)
      ensures rxBuf == null ==> session == old(session) && events == old(events)
      ensures rxBuf != null ==> session == Apply(old(session), Tested) && events == old(events) + [Tested]
    {
      hide Replay;
      hide Legal;
      empty := rxHead == rxTail;
      if rxBuf != null {
        ReplaySnoc(base, events, Tested);
        session := Apply(session, Tested);
        events := events + [Tested];
      }
    }

    method TakeByte() returns (b: byte)
      requires Valid() && rxBuf != null && session.ready
      modifies `rxTail, `session, `events
      ensures Valid() && session == Apply(old(session), Taken) && events == old(events) + [Taken]
      ensures b == old(rxBuf[rxTail]) && session.delivered == old(session.delivered) + [b]
    {
      hide Replay;
      hide Legal;
      b := rxBuf[rxTail];
      rxTail := rxTail + 1;
      rxTail := rxTail % UART_RX_BUF_LEN;
      ReplaySnoc(base, events, Taken);
      session := Apply(session, Taken);
      events := events + [Taken];
    }

    /** The interrupts, if any, at the next point of a schedule. */
    method AtPoint(irqs: seq<seq<byte>>, point: nat) returns (next: nat)
      requires Valid() && point <= |irqs|
      modifies `rxHead, `session, `events, rxBuf
      ensures Valid() && rxTail == old(rxTail) && next == if point < |irqs| then point + 1 else point
      ensures rxBuf == null ==> rxHead == old(rxHead) && session == old(session) && events == old(events)
      ensures rxBuf != null ==>
        && session.delivered == old(session.delivered) && session.ready == old(session.ready)
        && forall s :: old(session.received) == s + Bytes(irqs[..point]) ==>
             session.received == s + Bytes(irqs[..next])
    {
      hide Replay;
      hide Legal;
      next := point;
      if point < |irqs| {
        Interrupts(irqs[point]);
        next := point + 1;
        assert irqs[..next][..point] == irqs[..point];
      }
    }

    /** What every read guarantees, given the state it started from. */
    twostate predicate ReadEffect(data: seq<byte>, arrived: seq<byte>)
      reads this, rxBuf
    {
      && Valid()
      && (rxBuf == null ==> data == [] && rxHead == old(rxHead) && rxTail == old(rxTail))
      && (rxBuf != null ==>
            session.delivered == old(session.delivered) + data && session.received == old(session.received) + arrived)
    }

    /** `irqs` lists the bytes that arrive at each point where the reader can be interrupted: before
        every test of the indices, and between a test and the take that follows. After the last entry
        nothing more arrives. `used` entries have arrived when the read returns. */
    method Read(size: nat, irqs: seq<seq<byte>>) returns (r: ReadResult, ghost used: nat)
      requires Valid()
      modifies `rxHead, `rxTail, `session, `events, rxBuf
      ensures used <= |irqs| && ReadEffect(r.Data(), Bytes(irqs[..used])) && |r.Data()| <= size
      ensures r.Failed? <==> state != L.Useable
      ensures r.Failed? ==> r.code == HDF_FAILURE && events == old(events)
      ensures r.Done? && rdBlock ==> |r.data| == size
      ensures r.Done? && !rdBlock && |r.data| < size ==> rxHead == rxTail
      ensures r.Waiting? ==> rdBlock && |r.part| < size && rxHead == rxTail && used == |irqs|
      ensures r.Crash? ==> rxBuf == null
    {
      if state != L.Useable {
        return Failed(HDF_FAILURE), 0;
      }
      if rdBlock {
        r, used := ReadBlocking(size, irqs);
      } else {
        r, used := ReadNonBlocking(size, irqs);
      }
    }

    method ReadBlocking(size: nat, irqs: seq<seq<byte>>) returns (r: ReadResult, ghost used: nat)
      requires Valid()
      modifies `rxHead, `rxTail, `session, `events, rxBuf
      ensures used <= |irqs| && ReadEffect(r.Data(), Bytes(irqs[..used])) && |r.Data()| <= size && !r.Failed?
      ensures r.Done? ==> |r.data| == size
      ensures r.Waiting? ==> |r.part| < size && rxHead == rxTail && used == |irqs|
      ensures r.Crash? ==> rxBuf == null
    {
      hide Replay;
      hide Legal;
      hide L.Sound;
      hide Slot;
      var data: seq<byte> := [];
      var point := 0;
      while |data| != size
        invariant point <= |irqs| && ReadEffect(data, Bytes(irqs[..point])) && |data| <= size
        decreases size - |data| + (|irqs| - point)
      {
        var last := point == |irqs|;
        point := AtPoint(irqs, point);
        var empty := TestEmpty();
        if !empty {
          point := AtPoint(irqs, point);
          if rxBuf == null {
            return Crash(data), point;
          }
          var b := TakeByte();
          data := data + [b];
        } else if last {
          return Waiting(data), point;
        }
      }
      return Done(data), point;
    }

    method ReadNonBlocking(size: nat, irqs: seq<seq<byte>>) returns (r: ReadResult, ghost used: nat)
      requires Valid()
      modifies `rxHead, `rxTail, `session, `events, rxBuf
      ensures used <= |irqs| && ReadEffect(r.Data(), Bytes(irqs[..used])) && |r.Data()| <= size && (r.Done? || r.Crash?)
      ensures r.Done? && |r.data| < size ==> rxHead == rxTail
      ensures r.Crash? ==> rxBuf == null
    {
      hide Replay;
      hide Legal;
      hide L.Sound;
      hide Slot;
      var data: seq<byte> := [];
      var point := 0;
      while |data| != size
        invariant point <= |irqs| && ReadEffect(data, Bytes(irqs[..point])) && |data| <= size
        decreases size - |data|
      {
        point := AtPoint(irqs, point);
        var empty := TestEmpty();
        if empty {
          break;
        }
        point := AtPoint(irqs, point);
        if rxBuf == null {
          return Crash(data), point;
        }
        var b := TakeByte();
        data := data + [b];
      }
      return Done(data), point;
    }

    /** In every reachable state of the driver the ring is exact, whatever indices the last session left,
        so what `Read` appends to the delivered stream is what `AsrRing` says. */
    lemma DriverRingIsExact()
      requires Valid() && rxBuf != null
      ensures Exact(base.tail, Leftover(ZEROS, base.head, base.tail), session)
    {
      RingIsExact(ZEROS, base.head, base.tail, events);
    }
  }
}
