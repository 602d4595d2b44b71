/**
 The reference-counted opening and closing of a UART port, over runs of `Init` and `Deinit` in which
 any allocation, mutex creation or hardware configuration may fail.
 */
module UartLifecycle {
  import opened Hdf

  datatype State = NotOpened | Opening | Useable

  /** How far the set-up performed by an `Init` on a closed port gets. */
  datatype Setup = SetupOk | NoMemory | TxMutexFails | RxMutexFails | ConfigFails

  /** `setupOk` is the outcome of the last set-up; `allocs` and `frees` count receive buffers. */
  datatype Port = Port(
    state: State, count: int, buffer: bool, txMutex: bool, rxMutex: bool,
    setupOk: bool, allocs: nat, frees: nat)

  const ATTACHED := Port(NotOpened, 0, false, false, false, false, 0, 0)

  function Open(p: Port): Port {
    p.(state := Useable, count := p.count + 1)
  }

  /** The set-up of a closed port, which leaves it marked as opening however it ends. */
  function SetUp(p: Port, o: Setup): Port {
    var q := p.(state := Opening, setupOk := o == SetupOk);
    match o
    case NoMemory => q
    case TxMutexFails => q.(allocs := p.allocs + 1, txMutex := false, rxMutex := false)
    case RxMutexFails => q.(allocs := p.allocs + 1, txMutex := false, rxMutex := false)
    case ConfigFails =>
      q.(allocs := p.allocs + 1, frees := p.frees + 1, buffer := false, txMutex := false, rxMutex := false)
    case SetupOk => q.(allocs := p.allocs + 1, buffer := true, txMutex := true, rxMutex := true)
  }

  function Init(p: Port, o: Setup): Port {
    if p.state != NotOpened then Open(p)
    else if o == SetupOk then Open(SetUp(p, o))
    else SetUp(p, o)
  }

  function InitResult(p: Port, o: Setup): int {
    if p.state != NotOpened || o == SetupOk then HDF_SUCCESS
    else if o == NoMemory then HDF_ERR_MALLOC_FAIL
    else HDF_FAILURE
  }

  function Deinit(p: Port): Port {
    var q := p.(count := p.count - 1);
    if q.count != 0 then q
    else
      q.(state := NotOpened, buffer := false, txMutex := false, rxMutex := false,
         frees := if p.buffer then p.frees + 1 else p.frees)
  }

  datatype Op = OpInit(o: Setup) | OpDeinit

  function Do(p: Port, op: Op): Port {
    match op
    case OpInit(o) => Init(p, o)
    case OpDeinit => Deinit(p)
  }

  function Run(p: Port, ops: seq<Op>): Port {
    if ops == [] then p else Do(Run(p, ops[..|ops| - 1]), ops[|ops| - 1])
  }

  // ---- Every run ----

  /** What holds however `Init`s fail and `Deinit`s are repeated. */
  ghost predicate Sound(p: Port) {
    && (p.buffer <==> p.state != NotOpened && p.setupOk)
    && p.txMutex == p.buffer && p.rxMutex == p.buffer
    && (p.state == Opening ==> !p.setupOk)
    && (p.state != Useable ==> p.count <= 0)
  }

  /** The receive buffer and both mutexes exist exactly when the port is not closed and its last
      set-up succeeded: a usable port without a buffer is one whose `Init` was repeated after a failure. */
  lemma {:induction false} EveryRunIsSound(ops: seq<Op>)
    ensures Sound(Run(ATTACHED, ops))
    decreases |ops|
  {
    if ops != [] {
      EveryRunIsSound(ops[..|ops| - 1]);
    }
  }

  /** Number of set-ups of a run that failed while creating a mutex. */
  function MutexFailures(p: Port, ops: seq<Op>): nat {
    if ops == [] then 0
    else
      var n := |ops| - 1;
      MutexFailures(p, ops[..n]) +
      if Run(p, ops[..n]).state == NotOpened && (ops[n] == OpInit(TxMutexFails) || ops[n] == OpInit(RxMutexFails))
      then 1 else 0
  }

  /** Buffers are conserved except on one path: each failed mutex creation loses one. */
  lemma {:induction false} BuffersConserved(ops: seq<Op>)
    ensures var p := Run(ATTACHED, ops);
      p.allocs == p.frees + (if p.buffer then 1 else 0) + MutexFailures(ATTACHED, ops)
    decreases |ops|
  {
    if ops != [] {
      var before := ops[..|ops| - 1];
      BuffersConserved(before);
      EveryRunIsSound(before);
    }
  }

  // ---- Results ----

  /** In every reachable state `Init` succeeds exactly if it leaves the port usable, and that is unless the
      port is closed and its set-up fails; the code tells a lack of memory from every other failure. */
  lemma InitSucceedsIff(ops: seq<Op>, o: Setup)
    ensures var p := Run(ATTACHED, ops);
      && (InitResult(p, o) == HDF_SUCCESS <==> Init(p, o).state == Useable)
      && (InitResult(p, o) == HDF_SUCCESS <==> p.state != NotOpened || o == SetupOk)
      && (InitResult(p, o) == HDF_ERR_MALLOC_FAIL <==> p.state == NotOpened && o == NoMemory)
      && (InitResult(p, o) == HDF_FAILURE <==>
            p.state == NotOpened && (o == TxMutexFails || o == RxMutexFails || o == ConfigFails))
  {
  }

  /** Number of `Init`s of a run that report success. */
  function Successes(ops: seq<Op>): nat {
    if ops == [] then 0
    else
      var n := |ops| - 1;
      Successes(ops[..n]) +
      if ops[n].OpInit? && InitResult(Run(ATTACHED, ops[..n]), ops[n].o) == HDF_SUCCESS then 1 else 0
  }

  /** In every run, failures included, the count is the number of `Init`s that reported success less the
      number of `Deinit`s. */
  lemma {:induction false} CountIsSuccesses(ops: seq<Op>)
    ensures Run(ATTACHED, ops).count == Successes(ops) - Closes(ops)
    decreases |ops|
  {
    if ops != [] {
      CountIsSuccesses(ops[..|ops| - 1]);
    }
  }

  /** A `Deinit` closes the port exactly if it takes the count from one to zero, and otherwise changes only
      the count. */
  lemma ClosesAtOne(p: Port)
    ensures p.count == 1 ==> Deinit(p).state == NotOpened && !Deinit(p).buffer && Deinit(p).count == 0
    ensures p.count != 1 ==> Deinit(p) == p.(count := p.count - 1)
  {
  }

  // ---- Runs without failures ----

  function Opens(ops: seq<Op>): nat {
    if ops == [] then 0 else Opens(ops[..|ops| - 1]) + (if ops[|ops| - 1].OpInit? then 1 else 0)
  }

  function Closes(ops: seq<Op>): nat {
    if ops == [] then 0 else Closes(ops[..|ops| - 1]) + (if ops[|ops| - 1].OpDeinit? then 1 else 0)
  }

  /** Every set-up of the run succeeds, one being due when nobody has the port open, and no prefix closes
      more often than it opens. */
  predicate Balanced(ops: seq<Op>) {
    ops == [] ||
    var n := |ops| - 1;
    && Balanced(ops[..n])
    && Closes(ops) <= Opens(ops)
    && (ops[n].OpInit? ==> ops[n].o == SetupOk || Closes(ops[..n]) < Opens(ops[..n]))
  }

  /** In a balanced run the count is the number of users, and the port is usable, with its buffer and
      mutexes in place, exactly while it has users. */
  lemma {:induction false} BalancedRun(ops: seq<Op>)
    requires Balanced(ops)
    ensures var p := Run(ATTACHED, ops);
      && p.count == Opens(ops) - Closes(ops) >= 0
      && p.state == (if p.count > 0 then Useable else NotOpened)
      && (p.buffer <==> p.count > 0) && (p.txMutex <==> p.count > 0) && (p.rxMutex <==> p.count > 0)
    decreases |ops|
  {
    EveryRunIsSound(ops);
    if ops != [] {
      BalancedRun(ops[..|ops| - 1]);
      EveryRunIsSound(ops[..|ops| - 1]);
    }
  }

  // ---- Where the guarantee ends ----

  /** A read touches the buffer whenever the port is usable. */
  predicate Unsafe(p: Port) {
    p.state == Useable && !p.buffer
  }

  /** An `Init` is issued in the state a failed `Init` leaves behind. */
  predicate RetriesFailure(ops: seq<Op>) {
    ops != [] &&
    var n := |ops| - 1;
    RetriesFailure(ops[..n]) || (ops[n].OpInit? && Run(ATTACHED, ops[..n]).state == Opening)
  }

  predicate EverUnsafe(ops: seq<Op>) {
    Unsafe(Run(ATTACHED, ops)) || (ops != [] && EverUnsafe(ops[..|ops| - 1]))
  }

  /** A run reaches a usable port without a buffer if and only if it repeats `Init` after a failed one. */
  lemma {:induction false} UnsafeIffRetried(ops: seq<Op>)
    ensures EverUnsafe(ops) <==> RetriesFailure(ops)
    decreases |ops|
  {
    EveryRunIsSound(ops);
    if ops != [] {
      var n := |ops| - 1;
      UnsafeIffRetried(ops[..n]);
      EveryRunIsSound(ops[..n]);
      if Unsafe(Run(ATTACHED, ops[..n])) {
        if n > 0 {
          assert EverUnsafe(ops[..n]);
        }
      }
    }
  }

  /** The retried `Init` reports success. */
  lemma RetryReportsSuccess(ops: seq<Op>, o: Setup, retry: Setup)
    requires Run(ATTACHED, ops).state == NotOpened && o != SetupOk
    ensures var p := Run(ATTACHED, ops);
      && InitResult(p, o) != HDF_SUCCESS
      && InitResult(Init(p, o), retry) == HDF_SUCCESS
      && Unsafe(Init(Init(p, o), retry))
  {
  }

  /** A `Deinit` closes the port exactly when the count is one: after a surplus `Deinit` on a closed
      port the next user's `Deinit` leaves it open. */
  lemma SurplusDeinit(ops: seq<Op>)
    requires Balanced(ops) && Run(ATTACHED, ops).count == 0
    ensures var p := Deinit(Init(Deinit(Run(ATTACHED, ops)), SetupOk));
      p.state == Useable && p.buffer && p.count == -1
  {
    BalancedRun(ops);
  }
}
