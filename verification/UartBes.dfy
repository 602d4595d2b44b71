/**
 The BES UART receive path: a one-shot DMA transfer whose completion handler moves the bytes into a
 bounded FIFO and re-arms the DMA, and a reader that drains the FIFO.
 */
module UartBes {
  import opened Hdf

  const UART_FIFO_MAX_BUFFER: nat := 2048
  const UART_DMA_RING_BUFFER_SIZE: nat := 256
  const INT32_MAX: nat := 0x7FFF_FFFF

  type Transfer = t: seq<byte> | |t| <= UART_DMA_RING_BUFFER_SIZE witness []

  // ---- The protocol ----

  /** `delivered` is everything the DMA has handed to the completion handler, `stored` what of it went into
      the FIFO, and `returned` everything the readers have taken from there. */
  datatype Link = Link(
    capacity: nat, fifo: seq<byte>, armed: bool, rxSem: nat,
    delivered: seq<byte>, stored: seq<byte>, returned: seq<byte>)

  /** A transfer completes; a reader drains up to `n` bytes; a reader acquires the semaphore. */
  datatype Event = Dma(t: Transfer) | Drain(n: nat) | Acquire

  /** The state after `HalUartHandlerInit`. The FIFO is given its buffer only by the first open; later
      ones clear the whole context and leave a FIFO without room. */
  function Started(first: bool): Link {
    Link(if first then UART_FIFO_MAX_BUFFER else 0, [], true, 0, [], [], [])
  }

  function Apply(k: Link, e: Event): Link
    requires |k.fifo| <= k.capacity
  {
    match e
    case Dma(t) =>
      var len := Min(|t|, k.capacity - |k.fifo|);
      var k' := k.(fifo := k.fifo + t[..len], armed := false,
                   delivered := k.delivered + t, stored := k.stored + t[..len]);
      if len < |t| then k' else k'.(armed := true, rxSem := k.rxSem + 1)
    case Drain(n) =>
      var len := Min(n, |k.fifo|);
      k.(fifo := k.fifo[len..], returned := k.returned + k.fifo[..len])
    case Acquire =>
      k.(rxSem := if k.rxSem > 0 then k.rxSem - 1 else 0)
  }

  /** The DMA is one-shot: it completes only while armed. A reader passes a posted semaphore only. */
  predicate Enabled(k: Link, e: Event) {
    match e
    case Dma(_) => k.armed
    case Drain(_) => true
    case Acquire => k.rxSem > 0
  }

  function Replay(k: Link, es: seq<Event>): (r: Link)
    requires |k.fifo| <= k.capacity
    ensures |r.fifo| <= r.capacity && r.capacity == k.capacity
  {
    if es == [] then k else Apply(Replay(k, es[..|es| - 1]), es[|es| - 1])
  }

  predicate Legal(k: Link, es: seq<Event>)
    requires |k.fifo| <= k.capacity
  {
    es == [] ||
    (Legal(k, es[..|es| - 1]) && Enabled(Replay(k, es[..|es| - 1]), es[|es| - 1]))
  }

  lemma ReplaySnoc(k: Link, es: seq<Event>, e: Event)
    requires |k.fifo| <= k.capacity
    ensures Replay(k, es + [e]) == Apply(Replay(k, es), e)
    ensures Legal(k, es + [e]) <==> Legal(k, es) && Enabled(Replay(k, es), e)
  {
  }

  /** Nothing is missing while the DMA is armed; after an overflow the tail of one transfer is. */
  ghost predicate GapFree(k: Link) {
    && |k.fifo| <= k.capacity
    && k.returned + k.fifo == k.stored <= k.delivered
    && (k.armed ==> k.stored == k.delivered)
    && |k.delivered| - |k.stored| <= UART_DMA_RING_BUFFER_SIZE
  }

  lemma ApplyKeepsGapFree(k: Link, e: Event)
    requires GapFree(k) && Enabled(k, e)
    ensures GapFree(Apply(k, e))
  {
  }

  /** Over every interleaving of DMA completions and reads, what the readers have got is a prefix of what
      the DMA delivered, and at most the tail of one transfer is ever lost. */
  lemma {:induction false} ReceiveIsGapFree(first: bool, es: seq<Event>)
    requires Legal(Started(first), es)
    ensures GapFree(Replay(Started(first), es))
    ensures Replay(Started(first), es).returned <= Replay(Started(first), es).delivered
    decreases |es|
  {
    if es != [] {
      var n := |es| - 1;
      ReceiveIsGapFree(first, es[..n]);
      ApplyKeepsGapFree(Replay(Started(first), es[..n]), es[n]);
    }
    var k := Replay(Started(first), es);
    assert k.returned <= k.returned + k.fifo;
  }

  /** An overflow is final: once disarmed, the DMA delivers nothing more, however much is drained. */
  lemma {:induction false} OverflowIsFinal(k: Link, es: seq<Event>)
    requires |k.fifo| <= k.capacity && !k.armed && Legal(k, es)
    ensures !Replay(k, es).armed && Replay(k, es).delivered == k.delivered
    decreases |es|
  {
    if es != [] {
      OverflowIsFinal(k, es[..|es| - 1]);
    }
  }

  /** A transfer disarms the DMA exactly when it does not fit into the FIFO; the semaphore is posted exactly
      when it does. The FIFO is filled as far as it goes. */
  lemma DisarmedIffOverflow(k: Link, t: Transfer)
    requires |k.fifo| <= k.capacity && k.armed
    ensures var r, fits := Apply(k, Dma(t)), |k.fifo| + |t| <= k.capacity;
      && (r.armed <==> fits) && r.rxSem == k.rxSem + (if fits then 1 else 0)
      && r.fifo == (k.fifo + t)[..Min(|k.fifo| + |t|, k.capacity)]
  {
  }

  /** How often the semaphore has been posted: once for each transfer that left the DMA armed. */
  function Posts(k: Link, es: seq<Event>): nat
    requires |k.fifo| <= k.capacity
  {
    if es == [] then 0
    else
      var n := |es| - 1;
      Posts(k, es[..n]) + if es[n].Dma? && Replay(k, es).armed then 1 else 0
  }

  function Passes(es: seq<Event>): nat {
    if es == [] then 0 else Passes(es[..|es| - 1]) + if es[|es| - 1] == Acquire then 1 else 0
  }

  /** The semaphore counts posts less passes, over every interleaving. */
  lemma {:induction false} SemaphoreCounts(k: Link, es: seq<Event>)
    requires |k.fifo| <= k.capacity && Legal(k, es)
    ensures Replay(k, es).rxSem == k.rxSem + Posts(k, es) - Passes(es)
    decreases |es|
  {
    if es != [] {
      SemaphoreCounts(k, es[..|es| - 1]);
    }
  }

  /** After a second open every read of every run returns nothing, whatever the DMA delivers. */
  lemma {:induction false} SecondOpenReceivesNothing(es: seq<Event>)
    ensures Replay(Started(false), es).fifo == [] && Replay(Started(false), es).returned == []
    decreases |es|
  {
    if es != [] {
      SecondOpenReceivesNothing(es[..|es| - 1]);
    }
  }

  // ---- The driver ----

  /** What happens in one turn of the receive loop: the transfers that complete before the FIFO is drained,
      those that complete from then to the end of the wait, and whether the time limit has passed then. */
  datatype Turn = Turn(before: seq<Transfer>, during: seq<Transfer>, timedOut: bool)

  /** After the last turn of a schedule nothing completes and no time passes. */
  function TurnAt(turns: seq<Turn>, i: nat): Turn {
    if i < |turns| then turns[i] else Turn([], [], false)
  }

  /** Transfers complete one after the other while the DMA is armed. */
  function Deliver(k: Link, ts: seq<Transfer>): (r: Link)
    requires |k.fifo| <= k.capacity
    ensures |r.fifo| <= r.capacity
  {
    if ts == [] then k
    else
      var q := Deliver(k, ts[..|ts| - 1]);
      if q.armed then Apply(q, Dma(ts[|ts| - 1])) else q
  }

  // ---- What a reader gets ----

  /** The link just before the FIFO is drained in turn `i` of a receive of `n` bytes that began at `k`. */
  ghost function BeforeDrain(k: Link, n: nat, turns: seq<Turn>, i: nat): (r: Link)
    requires |k.fifo| <= k.capacity
    ensures |r.fifo| <= r.capacity
    decreases i, 0
  {
    Deliver(if i == 0 then k else AfterWait(k, n, turns, i - 1), TurnAt(turns, i).before)
  }

  ghost function AfterDrain(k: Link, n: nat, turns: seq<Turn>, i: nat): (r: Link)
    requires |k.fifo| <= k.capacity
    ensures |r.fifo| <= r.capacity
    decreases i, 1
  {
    var q := BeforeDrain(k, n, turns, i);
    var got := |q.returned| - |k.returned|;
    if 0 <= got <= n then Apply(q, Drain(n - got)) else q
  }

  ghost function AfterWait(k: Link, n: nat, turns: seq<Turn>, i: nat): (r: Link)
    requires |k.fifo| <= k.capacity
    ensures |r.fifo| <= r.capacity
    decreases i, 2
  {
    Acquired(Deliver(AfterDrain(k, n, turns, i), TurnAt(turns, i).during))
  }

  function Acquired(k: Link): Link
    requires |k.fifo| <= k.capacity
  {
    if k.rxSem > 0 then Apply(k, Acquire) else k
  }

  /** What the FIFO held when the receive began, and all that went into it up to the drain of turn `i`. */
  ghost function Available(k: Link, n: nat, turns: seq<Turn>, i: nat): seq<byte>
    requires |k.fifo| <= k.capacity
  {
    k.fifo + BeforeDrain(k, n, turns, i).stored[Min(|k.stored|, |BeforeDrain(k, n, turns, i).stored|)..]
  }

  /** The FIFO loses and invents nothing, and since `k` at most `n` bytes have been taken from it. */
  ghost predicate TookAtMost(k: Link, n: nat, q: Link) {
    && |q.fifo| <= q.capacity && q.returned + q.fifo == q.stored
    && k.stored <= q.stored && k.returned <= q.returned && |q.returned| <= |k.returned| + n
  }

  lemma {:induction false} DeliverTakesNothing(k: Link, n: nat, q: Link, ts: seq<Transfer>)
    requires TookAtMost(k, n, q)
    ensures TookAtMost(k, n, Deliver(q, ts)) && Deliver(q, ts).returned == q.returned
    decreases |ts|
  {
    if ts != [] {
      DeliverTakesNothing(k, n, q, ts[..|ts| - 1]);
    }
  }

  lemma {:induction false} BeforeDrainTook(k: Link, n: nat, turns: seq<Turn>, i: nat)
    requires TookAtMost(k, n, k)
    ensures TookAtMost(k, n, BeforeDrain(k, n, turns, i))
    decreases i
  {
    hide Deliver;
    if i == 0 {
      DeliverTakesNothing(k, n, k, TurnAt(turns, 0).before);
    } else {
      BeforeDrainTook(k, n, turns, i - 1);
      var q := AfterDrain(k, n, turns, i - 1);
      DeliverTakesNothing(k, n, q, TurnAt(turns, i - 1).during);
      DeliverTakesNothing(k, n, AfterWait(k, n, turns, i - 1), TurnAt(turns, i).before);
    }
  }

  /** After the drain of turn `i` the reader has all that was available up to then, or as much as it asked
      for. */
  lemma TakenIsAvailable(k: Link, n: nat, turns: seq<Turn>, i: nat)
    requires TookAtMost(k, n, k)
    ensures var all := Available(k, n, turns, i);
      AfterDrain(k, n, turns, i).returned == k.returned + all[..Min(n, |all|)]
  {
    BeforeDrainTook(k, n, turns, i);
    var q, all := BeforeDrain(k, n, turns, i), Available(k, n, turns, i);
    hide BeforeDrain;
    hide Deliver;
    assert q.returned + q.fifo == k.returned + all;
    var got := |q.returned| - |k.returned|;
    var more := Min(n - got, |q.fifo|);
    assert (q.returned + q.fifo)[..|q.returned| + more] == q.returned + q.fifo[..more];
    assert (k.returned + all)[..|k.returned| + Min(n, |all|)] == k.returned + all[..Min(n, |all|)];
  }

  /** The bytes of some transfers. */
  function Flat(ts: seq<Transfer>): seq<byte> {
    if ts == [] then [] else Flat(ts[..|ts| - 1]) + ts[|ts| - 1]
  }

  /** The bytes that the schedule brings up to the drain of turn `i`. */
  function Arrivals(turns: seq<Turn>, i: nat): seq<byte> {
    (if i == 0 then [] else Arrivals(turns, i - 1) + Flat(TurnAt(turns, i - 1).during)) + Flat(TurnAt(turns, i).before)
  }

  /** `q` has stored, since `k`, the bytes `arrived` up to an overflow, and all of them if it is armed. */
  ghost predicate StoredSince(k: Link, q: Link, arrived: seq<byte>) {
    && |q.fifo| <= q.capacity
    && q.stored <= k.stored + arrived && (q.armed ==> q.stored == k.stored + arrived)
  }

  lemma DmaStores(k: Link, q: Link, arrived: seq<byte>, t: Transfer)
    requires StoredSince(k, q, arrived)
    ensures StoredSince(k, if q.armed then Apply(q, Dma(t)) else q, arrived + t)
  {
    assert k.stored + (arrived + t) == k.stored + arrived + t;
  }

  lemma {:induction false} DeliverStores(k: Link, q: Link, arrived: seq<byte>, ts: seq<Transfer>)
    requires StoredSince(k, q, arrived)
    ensures StoredSince(k, Deliver(q, ts), arrived + Flat(ts))
    decreases |ts|
  {
    if ts == [] {
      assert arrived + Flat(ts) == arrived;
    } else {
      hide StoredSince;
      hide Apply;
      DeliverStores(k, q, arrived, ts[..|ts| - 1]);
      DmaStores(k, Deliver(q, ts[..|ts| - 1]), arrived + Flat(ts[..|ts| - 1]), ts[|ts| - 1]);
      assert arrived + Flat(ts) == arrived + Flat(ts[..|ts| - 1]) + ts[|ts| - 1];
    }
  }

  /** What is available to a reader is what the FIFO held at first and then what the schedule brings, up to
      an overflow; while the DMA is armed nothing of it is missing. */
  lemma {:induction false} AvailableAreArrivals(k: Link, n: nat, turns: seq<Turn>, i: nat)
    requires |k.fifo| <= k.capacity
    ensures StoredSince(k, BeforeDrain(k, n, turns, i), Arrivals(turns, i))
    decreases i
  {
    hide Deliver;
    hide Flat;
    if i == 0 {
      DeliverStores(k, k, [], TurnAt(turns, 0).before);
    } else {
      AvailableAreArrivals(k, n, turns, i - 1);
      var q, arrived := AfterDrain(k, n, turns, i - 1), Arrivals(turns, i - 1);
      DeliverStores(k, q, arrived, TurnAt(turns, i - 1).during);
      arrived := arrived + Flat(TurnAt(turns, i - 1).during);
      DeliverStores(k, AfterWait(k, n, turns, i - 1), arrived, TurnAt(turns, i).before);
    }
  }

  /** How a turn ends: with as much as was asked for, with nothing at all, with the time limit passed, in a
      wait that nothing ends, or in a wait that the semaphore ends. */
  datatype Verdict = Enough | Nothing | TimeUp | Stuck | GoesOn

  ghost function VerdictAt(k: Link, n: nat, turns: seq<Turn>, i: nat): Verdict
    requires |k.fifo| <= k.capacity
  {
    var q := AfterDrain(k, n, turns, i);
    if |q.returned| - |k.returned| >= n then Enough
    else if |q.returned| == |k.returned| then Nothing
    else if TurnAt(turns, i).timedOut then TimeUp
    else if Deliver(q, TurnAt(turns, i).during).rxSem == 0 then Stuck
    else GoesOn
  }

  lemma {:induction false} DeliverKeepsReturned(q: Link, ts: seq<Transfer>)
    requires |q.fifo| <= q.capacity
    ensures Deliver(q, ts).returned == q.returned
    decreases |ts|
  {
    if ts != [] {
      DeliverKeepsReturned(q, ts[..|ts| - 1]);
    }
  }

  lemma DrainStep(k: Link, n: nat, turns: seq<Turn>, i: nat, q: Link, left: nat)
    requires |k.fifo| <= k.capacity && q == if i == 0 then k else AfterWait(k, n, turns, i - 1)
    requires left <= n && |q.returned| == |k.returned| + n - left
    ensures |q.fifo| <= q.capacity
    ensures AfterDrain(k, n, turns, i) == Apply(Deliver(q, TurnAt(turns, i).before), Drain(left))
  {
    hide Deliver;
    hide Apply;
    DeliverKeepsReturned(q, TurnAt(turns, i).before);
    assert BeforeDrain(k, n, turns, i) == Deliver(q, TurnAt(turns, i).before);
  }

  lemma TurnEnds(k: Link, n: nat, turns: seq<Turn>, i: nat, data: seq<byte>)
    requires TookAtMost(k, n, k) && AfterDrain(k, n, turns, i).returned == k.returned + data
    ensures var all := Available(k, n, turns, i); data == all[..Min(n, |all|)]
    ensures var w := Deliver(AfterDrain(k, n, turns, i), TurnAt(turns, i).during);
      && AfterWait(k, n, turns, i) == Acquired(w)
      && VerdictAt(k, n, turns, i) ==
           if |data| >= n then Enough
           else if data == [] then Nothing
           else if TurnAt(turns, i).timedOut then TimeUp
           else if w.rxSem == 0 then Stuck
           else GoesOn
  {
    hide Deliver;
    hide Apply;
    hide AfterDrain;
    hide Available;
    TakenIsAvailable(k, n, turns, i);
    var all := Available(k, n, turns, i);
    assert data == (k.returned + data)[|k.returned|..] == (k.returned + all[..Min(n, |all|)])[|k.returned|..];
  }

  /** The last drain of a receive is that of turn `i`. */
  ghost predicate EndsIn(k: Link, n: nat, turns: seq<Turn>, i: nat)
    requires |k.fifo| <= k.capacity
  {
    (forall j | 0 <= j < i :: VerdictAt(k, n, turns, j) == GoesOn) && VerdictAt(k, n, turns, i) != GoesOn
  }

  /** `Waiting` is a wait that nothing ends. */
  datatype RecvResult = Received(data: seq<byte>) | Invalid(code: int) | Waiting(part: seq<byte>)
  {
    function Data(): seq<byte> {
      match this
      case Received(data) => data
      case Invalid(_) => []
      case Waiting(part) => part
    }
  }

  class BesUart {
    var capacity: nat
    var fifo: seq<byte>
    var armed: bool
    var rxSem: nat
    var hasKfifoBuffer: bool

    ghost var start: Link
    ghost var events: seq<Event>
    ghost var delivered: seq<byte>
    ghost var stored: seq<byte>
    ghost var returned: seq<byte>

    ghost predicate Valid()
      reads this
    {
      && |start.fifo| <= start.capacity && Legal(start, events) && Replay(start, events) == State()
      && returned + fifo == stored
    }

    ghost function State(): Link
      reads this
    {
      Link(capacity, fifo, armed, rxSem, delivered, stored, returned)
    }

    constructor ()
      ensures Valid() && !hasKfifoBuffer && !armed && capacity == 0
    {
      capacity, fifo, armed, rxSem, hasKfifoBuffer := 0, [], false, 0, false;
      start, events := Link(0, [], false, 0, [], [], []), [];
      delivered, stored, returned := [], [], [];
    }

    /** Open: clear the context, set up the FIFO if its buffer has never been allocated, arm the DMA.
        `allocOk` says whether the buffer can be allocated if it is needed. */
    method HandlerInit(allocOk: bool)
      modifies this
      ensures Valid() && events == [] && start == State()
      ensures hasKfifoBuffer == (old(hasKfifoBuffer) || allocOk)
      ensures fifo == [] && rxSem == 0 && armed == hasKfifoBuffer
      ensures capacity == if allocOk && !old(hasKfifoBuffer) then 2048 else 0
      ensures State() == if hasKfifoBuffer then Started(!old(hasKfifoBuffer)) else Link(0, [], false, 0, [], [], [])
    {
      capacity, fifo, armed, rxSem := 0, [], false, 0;
      delivered, stored, returned := [], [], [];
      start, events := State(), [];
      if !hasKfifoBuffer {
        if !allocOk {
          return;
        }
        hasKfifoBuffer := true;
        capacity := UART_FIFO_MAX_BUFFER;
      }
      rxSem := 0;
      armed := true;
      start := State();
    }

    /** Completion of a DMA transfer. */
    method DmaRxHandler(xfer: Transfer)
      requires Valid() && armed
      modifies `fifo, `armed, `rxSem, `events, `delivered, `stored
      ensures Valid() && events == old(events) + [Dma(xfer)]
      ensures State() == Apply(old(State()), Dma(xfer))
    {
      hide Replay;
      hide Legal;
      armed := false;
      var len := KfifoPut(xfer);
      delivered, stored := delivered + xfer, stored + xfer[..len];
      ReplaySnoc(start, events, Dma(xfer));
      events := events + [Dma(xfer)];
      if len < |xfer| {
        return;
      }
      rxSem := rxSem + 1;
      armed := true;
    }

    method KfifoPut(data: seq<byte>) returns (len: nat)
      requires |fifo| <= capacity
      modifies `fifo
      ensures len == Min(|data|, capacity - |old(fifo)|) && fifo == old(fifo) + data[..len]
    {
      len := Min(|data|, capacity - |fifo|);
      fifo := fifo + data[..len];
    }

    method KfifoGet(n: nat) returns (data: seq<byte>)
      requires Valid()
      modifies `fifo, `events, `returned
      ensures Valid() && events == old(events) + [Drain(n)]
      ensures State() == Apply(old(State()), Drain(n))
      ensures data == old(fifo)[..Min(n, |old(fifo)|)] && returned == old(returned) + data
    {
      hide Replay;
      hide Legal;
      var len := Min(n, |fifo|);
      data := fifo[..len];
      fifo := fifo[len..];
      returned := returned + data;
      ReplaySnoc(start, events, Drain(n));
      events := events + [Drain(n)];
    }

    /** Pass the semaphore if it has been posted. */
    method SemAcquire() returns (ok: bool)
      requires Valid()
      modifies `rxSem, `events
      ensures Valid() && ok == (old(rxSem) > 0)
      ensures events == (if ok then old(events) + [Acquire] else old(events))
      ensures rxSem == if ok then old(rxSem) - 1 else old(rxSem)
    {
      hide Replay;
      hide Legal;
      ok := rxSem > 0;
      if ok {
        ReplaySnoc(start, events, Acquire);
        events := events + [Acquire];
        rxSem := rxSem - 1;
      }
    }

    /** The completions between two steps of a reader; the DMA stays silent once disarmed. */
    method Completions(transfers: seq<Transfer>)
      requires Valid()
      modifies `fifo, `armed, `rxSem, `events, `delivered, `stored
      ensures Valid() && State() == Deliver(old(State()), transfers)
      ensures transfers == [] ==> rxSem == old(rxSem)
    {
      hide Replay;
      hide Legal;
      hide Apply;
      for i := 0 to |transfers|
        invariant Valid() && State() == Deliver(old(State()), transfers[..i])
      {
        assert transfers[..i + 1][..i] == transfers[..i];
        if armed {
          DmaRxHandler(transfers[i]);
        }
      }
      assert transfers[..|transfers|] == transfers;
    }

    /** Drain the FIFO once `transfers` have completed. */
    method DrainAfter(transfers: seq<Transfer>, n: nat) returns (data: seq<byte>)
      requires Valid()
      modifies `fifo, `armed, `rxSem, `events, `delivered, `stored, `returned
      ensures Valid() && returned == old(returned) + data
      ensures transfers == [] ==> rxSem == old(rxSem)
      ensures var k := Deliver(old(State()), transfers);
        data == k.fifo[..Min(n, |k.fifo|)] && State() == Apply(k, Drain(n))
    {
      hide Replay;
      hide Legal;
      hide Deliver;
      hide Apply;
      Completions(transfers);
      data := KfifoGet(n);
    }

    /** Wait for the semaphore; `transfers` complete before the wait ends. */
    method SemWait(transfers: seq<Transfer>) returns (ok: bool)
      requires Valid()
      modifies `fifo, `armed, `rxSem, `events, `delivered, `stored
      ensures Valid() && (!ok ==> rxSem == 0)
      ensures ok && transfers == [] ==> rxSem == old(rxSem) - 1
      ensures var k := Deliver(old(State()), transfers);
        ok == (k.rxSem > 0) && State() == Acquired(k)
    {
      hide Replay;
      hide Legal;
      hide Deliver;
      Completions(transfers);
      ok := SemAcquire();
    }

    /** `turns` says what happens in each turn of the loop, `last` is the turn of the last drain and `used` the
        number of waits begun. What is returned is all that was available up to the last drain, or as much as
        was asked for. It is short but not empty only if time was up after the last wait and after no other;
        the reader is left waiting only if the last wait passed neither the semaphore nor the time limit. */
    method HalUartRecv(expectSize: nat, turns: seq<Turn>) returns (r: RecvResult, ghost last: nat, ghost used: nat)
      requires Valid()
      modifies `fifo, `armed, `rxSem, `events, `delivered, `stored, `returned
      ensures Valid() && returned == old(returned) + r.Data()
      ensures r.Invalid? <==> expectSize == 0
      ensures r.Invalid? ==> r.code == HDF_ERR_INVALID_PARAM && State() == old(State()) && used == 0
      ensures !r.Invalid? ==>
        var k, all := old(State()), Available(old(State()), expectSize, turns, last);
        && EndsIn(k, expectSize, turns, last) && r.Data() == all[..Min(expectSize, |all|)]
        && used == (if r.Received? && (r.data == [] || |r.data| == expectSize) then last else last + 1)
        && (r.Waiting? <==> VerdictAt(k, expectSize, turns, last) == Stuck)
        && (used == last ==> State() == AfterDrain(k, expectSize, turns, last))
        && (used > last ==> State() == AfterWait(k, expectSize, turns, last))
      ensures r.Data() == [] ==> last == used == 0
      ensures forall j | 0 <= j < last :: !TurnAt(turns, j).timedOut
      ensures r.Received? && 0 < |r.data| < expectSize ==> TurnAt(turns, last).timedOut
      ensures r.Waiting? ==> 0 < |r.part| < expectSize && rxSem == 0 && !TurnAt(turns, last).timedOut
    {
      hide Replay;
      hide Legal;
      hide Deliver;
      hide Apply;
      hide Acquired;
      hide AfterDrain;
      hide AfterWait;
      hide VerdictAt;
      hide Available;
      var expectLen := expectSize;
      if expectLen == 0 {
        return Invalid(HDF_ERR_INVALID_PARAM), 0, 0;
      }
      ghost var k := State();
      var data: seq<byte> := [];
      var i := 0;
      while true
        invariant Valid() && returned == old(returned) + data
        invariant |data| + expectLen == expectSize && expectLen > 0 && (i > 0 ==> data != [])
        invariant State() == if i == 0 then k else AfterWait(k, expectSize, turns, i - 1)
        invariant forall j | 0 <= j < i :: VerdictAt(k, expectSize, turns, j) == GoesOn && !TurnAt(turns, j).timedOut
        decreases if i < |turns| then |turns| - i else 0, rxSem
      {
        var turn := TurnAt(turns, i);
        ghost var q := State();
        var popped := DrainAfter(turn.before, expectLen);
        data := data + popped;
        expectLen := expectLen - |popped|;
        DrainStep(k, expectSize, turns, i, q, expectLen + |popped|);
        TurnEnds(k, expectSize, turns, i, data);
        if |data| >= expectSize {
          return Received(data), i, i;
        }
        // nothing in the FIFO
        if |data| == 0 {
          return Received(data), i, i;
        }
        // wait for more
        var ok := SemWait(turn.during);
        i := i + 1;
        if turn.timedOut {
          return Received(data), i - 1, i;
        }
        if !ok {
          return Waiting(data), i - 1, i;
        }
      }
    }

    /** The DMA branch of a read; the number of bytes is returned as a signed 32-bit value. */
    method Read(size: nat, turns: seq<Turn>) returns (ret: int, data: seq<byte>, waiting: bool, ghost last: nat)
      requires Valid()
      modifies `fifo, `armed, `rxSem, `events, `delivered, `stored, `returned
      ensures Valid() && returned == old(returned) + data
      ensures !waiting && size > 0 && |data| <= INT32_MAX ==> ret == |data|
      ensures size == 0 || |data| > INT32_MAX ==> waiting || ret == HDF_ERR_INVALID_PARAM
      ensures if size == 0 then data == [] && !waiting else
        var all := Available(old(State()), size, turns, last);
        && EndsIn(old(State()), size, turns, last) && data == all[..Min(size, |all|)]
        && (waiting <==> VerdictAt(old(State()), size, turns, last) == Stuck)
    {
      hide Replay;
      hide Legal;
      hide Deliver;
      hide Apply;
      hide AfterDrain;
      hide AfterWait;
      var r;
      ghost var used;
      r, last, used := HalUartRecv(size, turns);
      data, waiting, ret := r.Data(), r.Waiting?, HDF_SUCCESS;
      if r.Invalid? {
        return r.code, data, false, last;
      }
      if |data| > INT32_MAX {
        return HDF_ERR_INVALID_PARAM, data, waiting, last;
      }
      ret := |data|;
    }

    /** In every reachable state of the driver all bytes returned form a prefix of the bytes delivered. */
    lemma DriverIsGapFree(first: bool)
      requires Valid() && start == Started(first)
      ensures GapFree(State()) && returned <= delivered
    {
      ReceiveIsGapFree(first, events);
    }
  }
}
