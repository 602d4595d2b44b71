/**
 The GR5xx UART read: readers serialise on a mutex, start an asynchronous receive, and wait on a binary
 semaphore that the HAL event posts.  A reader loads the shared byte count after releasing the mutex.
 */
module UartGr5xx {
  import opened Hdf

  /** Where the reader that holds the mutex is; `id` names its accepted request. */
  datatype Stage = Entered | Zeroed | Drained | Asked(id: nat) | Woken(id: nat)

  datatype Holder = Holder(tid: nat, stage: Stage)

  /** A reader that has released the mutex and not yet loaded the count. */
  datatype Leaver = Leaver(id: nat, zeroings: nat)

  /** What a successful read returned; `overlapped` if another reader zeroed the count before the load. */
  datatype Return = Return(id: nat, value: nat, overlapped: bool)

  /** `done` records the size of every completed request, 0 for an error; `zeroings` counts the times the
      shared count was zeroed. */
  datatype Port = Port(
    owner: Option<Holder>, rxSem: bool, rxNum: nat,
    outstanding: set<nat>, nextId: nat, done: map<nat, nat>,
    zeroings: nat, leaving: map<nat, Leaver>, returned: seq<Return>)

  const IDLE := Port(None, false, 0, {}, 0, map[], 0, map[], [])

  datatype Event =
    | Lock(tid: nat)
    | Zero
    | Drain
    | Ask(accepted: bool)
    | RxData(id: nat, size: nat)
    | RxError(id: nat)
    | Wake(ok: bool)
    | Unlock
    | Load(tid: nat)

  predicate StageIs(p: Port, s: Stage) {
    p.owner.Some? && p.owner.value.stage == s
  }

  /** The HAL raises an event only for an accepted request that has had none. */
  predicate Enabled(p: Port, e: Event) {
    match e
    case Lock(t) => p.owner.None? && t !in p.leaving
    case Zero => StageIs(p, Entered)
    case Drain => StageIs(p, Zeroed)
    case Ask(_) => StageIs(p, Drained)
    case RxData(id, _) => id in p.outstanding
    case RxError(id) => id in p.outstanding
    case Wake(ok) => p.owner.Some? && p.owner.value.stage.Asked? && (ok ==> p.rxSem)
    case Unlock => p.owner.Some? && p.owner.value.stage.Woken?
    case Load(t) => t in p.leaving
  }

  function At(p: Port, s: Stage): Port
    requires p.owner.Some?
  {
    p.(owner := Some(p.owner.value.(stage := s)))
  }

  function Apply(p: Port, e: Event): Port
    requires Enabled(p, e)
  {
    match e
    case Lock(t) => p.(owner := Some(Holder(t, Entered)))
    case Zero => At(p, Zeroed).(rxNum := 0, zeroings := p.zeroings + 1)
    case Drain => At(p, Drained).(rxSem := false)
    case Ask(accepted) =>
      if accepted then At(p, Asked(p.nextId)).(outstanding := p.outstanding + {p.nextId}, nextId := p.nextId + 1)
      else p.(owner := None)
    case RxData(id, size) =>
      p.(outstanding := p.outstanding - {id}, done := p.done[id := size], rxNum := size, rxSem := true)
    case RxError(id) =>
      p.(outstanding := p.outstanding - {id}, done := p.done[id := 0], rxSem := true)
    case Wake(ok) =>
      if ok then At(p, Woken(p.owner.value.stage.id)).(rxSem := false)
      else p.(owner := None)
    case Unlock =>
      p.(owner := None,
         leaving := p.leaving[p.owner.value.tid := Leaver(p.owner.value.stage.id, p.zeroings)])
    case Load(t) =>
      var l := p.leaving[t];
      p.(leaving := p.leaving - {t},
         returned := p.returned + [Return(l.id, p.rxNum, l.zeroings != p.zeroings)])
  }

  /** The states along a run: `es` can be performed from `p`. */
  predicate Legal(p: Port, es: seq<Event>)
    decreases |es|
  {
    es == [] || (Enabled(p, es[0]) && Legal(Apply(p, es[0]), es[1..]))
  }

  function Replay(p: Port, es: seq<Event>): Port
    requires Legal(p, es)
    decreases |es|
  {
    if es == [] then p else Replay(Apply(p, es[0]), es[1..])
  }

  // ---- One request at a time ----

  /** A wait that fails while its request is still outstanding abandons the request. */
  predicate Abandons(p: Port, e: Event) {
    e == Wake(false) && p.outstanding != {}
  }

  predicate NeverAbandons(p: Port, es: seq<Event>)
    requires Legal(p, es)
    decreases |es|
  {
    es == [] || (!Abandons(p, es[0]) && NeverAbandons(Apply(p, es[0]), es[1..]))
  }

  ghost predicate Rendezvous(p: Port) {
    && (forall id | id in p.done :: id < p.nextId)
    && (match p.owner
        case None => p.outstanding == {}
        case Some(h) =>
          match h.stage
          case Entered => p.outstanding == {}
          case Zeroed => p.outstanding == {} && p.rxNum == 0
          case Drained => p.outstanding == {} && p.rxNum == 0 && !p.rxSem
          case Asked(id) =>
            || (p.outstanding == {id} && !p.rxSem && p.rxNum == 0 && id < p.nextId && id !in p.done)
            || (p.outstanding == {} && p.rxSem && id in p.done && p.rxNum == p.done[id])
          case Woken(id) => p.outstanding == {} && id in p.done && p.rxNum == p.done[id])
  }

  /** Who still sees its own count: a reader that has left and after whom nobody has zeroed it. */
  ghost predicate OwnCounts(p: Port) {
    && (forall t | t in p.leaving ::
          && p.leaving[t].id in p.done && p.leaving[t].zeroings <= p.zeroings
          && (p.leaving[t].zeroings == p.zeroings ==> p.rxNum == p.done[p.leaving[t].id]))
    && (p.owner.Some? && p.owner.value.stage != Entered ==>
          forall t | t in p.leaving :: p.leaving[t].zeroings < p.zeroings)
    && (forall r | r in p.returned :: r.id in p.done && (!r.overlapped ==> r.value == p.done[r.id]))
  }

  /** `v` is what a reader of request `id` finds once others have come in: a cleared count, or the size of
      a later completion. */
  ghost predicate LaterCount(done: map<nat, nat>, id: nat, v: nat) {
    v == 0 || exists j :: j in done && j > id && done[j] == v
  }

  /** What the others see. */
  ghost predicate LaterCounts(p: Port) {
    && (p.owner.Some? && (p.owner.value.stage.Asked? || p.owner.value.stage.Woken?) ==>
          forall t | t in p.leaving :: p.leaving[t].id < p.owner.value.stage.id)
    && (forall t | t in p.leaving && p.leaving[t].zeroings != p.zeroings ::
          LaterCount(p.done, p.leaving[t].id, p.rxNum))
    && (forall r | r in p.returned && r.overlapped :: LaterCount(p.done, r.id, r.value))
  }

  ghost predicate Orderly(p: Port) {
    Rendezvous(p) && OwnCounts(p) && LaterCounts(p)
  }

  /** A refused request and a failed wait release the mutex and change nothing else; an error event leaves
      the count as it is. */
  lemma FailuresOnlyRelease(p: Port, id: nat)
    ensures Enabled(p, Ask(false)) ==> Apply(p, Ask(false)) == p.(owner := None)
    ensures Enabled(p, Wake(false)) ==> Apply(p, Wake(false)) == p.(owner := None)
    ensures Enabled(p, RxError(id)) ==>
      var q := Apply(p, RxError(id));
      q.rxNum == p.rxNum && q.owner == p.owner && q.rxSem && q.outstanding == p.outstanding - {id}
  {
  }

  lemma StepKeepsRendezvous(p: Port, e: Event)
    requires Rendezvous(p) && Enabled(p, e) && !Abandons(p, e)
    ensures Rendezvous(Apply(p, e))
  {
  }

  lemma StepKeepsOwnCounts(p: Port, e: Event)
    requires Rendezvous(p) && OwnCounts(p) && Enabled(p, e) && !Abandons(p, e)
    ensures OwnCounts(Apply(p, e))
  {
  }

  lemma LaterCountStays(done: map<nat, nat>, id: nat, v: nat, key: nat, value: nat)
    requires LaterCount(done, id, v) && key !in done
    ensures LaterCount(done[key := value], id, v)
  {
    if v != 0 {
      var j :| j in done && j > id && done[j] == v;
      assert done[key := value][j] == v;
    }
  }

  /** A completion is of the request of the reader that holds the mutex, which is later than those of the
      readers that have left. */
  lemma CompletionKeepsLaterCounts(p: Port, id: nat, size: nat)
    requires Orderly(p) && id in p.outstanding
    ensures LaterCounts(Apply(p, RxData(id, size))) && LaterCounts(Apply(p, RxError(id)))
  {
    assert p.owner.value.stage == Asked(id);
    var data, error := p.done[id := size], p.done[id := 0];
    forall t | t in p.leaving
      ensures LaterCount(data, p.leaving[t].id, size) && LaterCount(error, p.leaving[t].id, p.rxNum)
    {
      assert p.leaving[t].id < id && data[id] == size;
    }
    forall r | r in p.returned && r.overlapped
      ensures LaterCount(data, r.id, r.value) && LaterCount(error, r.id, r.value)
    {
      LaterCountStays(p.done, r.id, r.value, id, size);
      LaterCountStays(p.done, r.id, r.value, id, 0);
    }
  }

  lemma StepKeepsLaterCounts(p: Port, e: Event)
    requires Orderly(p) && Enabled(p, e) && !Abandons(p, e)
    ensures LaterCounts(Apply(p, e))
  {
    hide LaterCount;
    match e
    case RxData(id, size) => CompletionKeepsLaterCounts(p, id, size);
    case RxError(id) => CompletionKeepsLaterCounts(p, id, 0);
    case Zero => ZeroIsLater();
    case _ =>
  }

  lemma ZeroIsLater()
    ensures forall done, id: nat :: LaterCount(done, id, 0)
  {
  }

  lemma StepKeepsOrderly(p: Port, e: Event)
    requires Orderly(p) && Enabled(p, e) && !Abandons(p, e)
    ensures Orderly(Apply(p, e))
  {
    StepKeepsRendezvous(p, e);
    StepKeepsOwnCounts(p, e);
    StepKeepsLaterCounts(p, e);
  }

  /** Unless a wait fails with its request outstanding, every run has at most one request outstanding;
      when a reader whose wait succeeded releases the mutex, the shared count is the size of its own
      completion; a read that no other reader overlaps returns that size, and any other read returns 0 or
      the size of a later request. */
  lemma {:induction false} RunIsRendezvous(p: Port, es: seq<Event>)
    requires Orderly(p) && Legal(p, es) && NeverAbandons(p, es)
    ensures Orderly(Replay(p, es))
    ensures |Replay(p, es).outstanding| <= 1
    decreases |es|
  {
    if es == [] {
      assert |p.outstanding| <= 1;
    } else {
      hide Orderly;
      StepKeepsOrderly(p, es[0]);
      RunIsRendezvous(Apply(p, es[0]), es[1..]);
    }
  }

  lemma EveryRunFromIdle(es: seq<Event>)
    requires Legal(IDLE, es) && NeverAbandons(IDLE, es)
    ensures var p := Replay(IDLE, es);
      && |p.outstanding| <= 1
      && (forall h | p.owner == Some(h) && h.stage.Woken? :: h.stage.id in p.done && p.rxNum == p.done[h.stage.id])
      && (forall r | r in p.returned :: r.id in p.done &&
            if r.overlapped then LaterCount(p.done, r.id, r.value) else r.value == p.done[r.id])
  {
    hide LaterCount;
    RunIsRendezvous(IDLE, es);
  }

  lemma RunStep(p: Port, e: Event, es: seq<Event>)
    requires Enabled(p, e) && Legal(Apply(p, e), es)
    ensures Legal(p, [e] + es) && Replay(p, [e] + es) == Replay(Apply(p, e), es)
  {
  }

  /** The condition is exact: from any state in which a wait fails with its request outstanding, the
      next reader can bring the number of outstanding requests to two. */
  lemma AbandoningBreaksIt(p: Port, t: nat)
    requires Rendezvous(p) && Enabled(p, Wake(false)) && Abandons(p, Wake(false)) && t !in p.leaving
    ensures var es := [Wake(false)] + ([Lock(t)] + ([Zero] + ([Drain] + ([Ask(true)] + []))));
      Legal(p, es) && |Replay(p, es).outstanding| == 2
  {
    var p1 := Apply(p, Wake(false));
    var p2 := Apply(p1, Lock(t));
    var p3 := Apply(p2, Zero);
    var p4 := Apply(p3, Drain);
    assert Apply(p4, Ask(true)).outstanding == {p.owner.value.stage.id, p.nextId};
    hide Apply;
    RunStep(p4, Ask(true), []);
    RunStep(p3, Drain, [Ask(true)] + []);
    RunStep(p2, Zero, [Drain] + ([Ask(true)] + []));
    RunStep(p1, Lock(t), [Zero] + ([Drain] + ([Ask(true)] + [])));
    RunStep(p, Wake(false), [Lock(t)] + ([Zero] + ([Drain] + ([Ask(true)] + []))));
  }

  /** The load after the release is a race. A reader that has released the mutex returns 0, whatever its
      completion, if another reader gets in before the load, and the other's size if that one completes. */
  lemma OverlapLosesCount(p: Port, t: nat, other: nat, size: nat)
    requires p.owner.None? && t in p.leaving && other !in p.leaving && p.leaving[t].zeroings <= p.zeroings
    ensures var early := [Lock(other)] + ([Zero] + ([Load(t)] + []));
      && Legal(p, early) && Replay(p, early).done == p.done
      && Replay(p, early).returned == p.returned + [Return(p.leaving[t].id, 0, true)]
    ensures
      var late := [Lock(other)]
                  + ([Zero] + ([Drain] + ([Ask(true)] + ([RxData(p.nextId, size)] + ([Load(t)] + [])))));
      && Legal(p, late) && Replay(p, late).done == p.done[p.nextId := size]
      && Replay(p, late).returned == p.returned + [Return(p.leaving[t].id, size, true)]
  {
    var p1 := Apply(p, Lock(other));
    var p2 := Apply(p1, Zero);
    var p3 := Apply(p2, Drain);
    var p4 := Apply(p3, Ask(true));
    var p5 := Apply(p4, RxData(p.nextId, size));
    assert Enabled(p2, Load(t)) && Apply(p2, Load(t)).returned == p.returned + [Return(p.leaving[t].id, 0, true)];
    assert Enabled(p5, Load(t)) && Apply(p5, Load(t)).returned == p.returned + [Return(p.leaving[t].id, size, true)];
    assert Apply(p5, Load(t)).done == p.done[p.nextId := size];
    assert Enabled(p4, RxData(p.nextId, size));
    hide Apply;
    var last := [Load(t)] + [];
    RunStep(p2, Load(t), []);
    RunStep(p1, Zero, last);
    RunStep(p, Lock(other), [Zero] + last);
    RunStep(p5, Load(t), []);
    RunStep(p4, RxData(p.nextId, size), last);
    RunStep(p3, Ask(true), [RxData(p.nextId, size)] + last);
    RunStep(p2, Drain, [Ask(true)] + ([RxData(p.nextId, size)] + last));
    RunStep(p1, Zero, [Drain] + ([Ask(true)] + ([RxData(p.nextId, size)] + last)));
    RunStep(p, Lock(other), [Zero] + ([Drain] + ([Ask(true)] + ([RxData(p.nextId, size)] + last))));
  }

  // ---- The driver ----

  datatype AppEvent = EvtRxData(size: nat) | EvtError | EvtOther

  /** A step of somebody other than reader `tid`: another reader, or the HAL. */
  predicate Foreign(p: Port, tid: nat, e: Event) {
    match e
    case Lock(t) => t != tid
    case Load(t) => t != tid
    case RxData(_, _) => true
    case RxError(_) => true
    case _ => p.owner.Some? && p.owner.value.tid != tid
  }

  /** Where reader `tid` is. */
  datatype Place = Outside | Holding(stage: Stage) | Left(leaver: Leaver)

  function PlaceOf(p: Port, tid: nat): Place {
    if p.owner.Some? && p.owner.value.tid == tid then Holding(p.owner.value.stage)
    else if tid in p.leaving then Left(p.leaving[tid])
    else Outside
  }

  /** A reader that holds the mutex has not left. */
  predicate Apart(p: Port) {
    p.owner.Some? ==> p.owner.value.tid !in p.leaving
  }

  /** Nobody else moves a reader. */
  lemma ForeignKeepsPlace(p: Port, tid: nat, e: Event)
    requires Apart(p) && Enabled(p, e)
    ensures Apart(Apply(p, e)) && Apply(p, e).nextId >= p.nextId
    ensures Foreign(p, tid, e) ==> PlaceOf(Apply(p, e), tid) == PlaceOf(p, tid)
    ensures e != Zero ==> Apply(p, e).zeroings == p.zeroings
  {
  }

  /** What a reader is told, given its request and whether it was overlapped. */
  ghost predicate Told(p: Port, r: Return) {
    r.id in p.done && if r.overlapped then LaterCount(p.done, r.id, r.value) else r.value == p.done[r.id]
  }

  lemma LastIsTold(p: Port)
    requires Orderly(p) && p.returned != []
    ensures Told(p, p.returned[|p.returned| - 1])
  {
    assert p.returned[|p.returned| - 1] in p.returned;
  }

  lemma AskedAlone(p: Port, tid: nat, id: nat)
    requires Orderly(p) && PlaceOf(p, tid) == Holding(Asked(id)) && id in p.outstanding
    ensures p.outstanding == {id} && !p.rxSem && p.rxNum == 0
  {
  }

  datatype Entry = Asking | Refused | NoMutex

  /** `Locked` and `Pending` are readers that nothing lets go on. */
  datatype ReadResult = Returned(ret: int) | Locked | Pending

  function Others(sched: seq<seq<Event>>, i: nat): seq<Event> {
    if i < |sched| then sched[i] else []
  }

  predicate Quiet(sched: seq<seq<Event>>) {
    forall i | 0 <= i < |sched| :: Wake(false) !in sched[i]
  }

  /** `port` is the whole protocol, of which the driver keeps a semaphore, a mutex and a count. */
  class Gr5xxUart {
    var rxSem: bool
    var rxMutex: bool
    var rxNum: nat
    var port: Port

    // whether a wait has ever failed with its request outstanding
    ghost var abandoned: bool

    ghost predicate Valid()
      reads this
    {
      && rxSem == port.rxSem && rxNum == port.rxNum && rxMutex == port.owner.Some?
      && Apart(port) && (!abandoned ==> Orderly(port))
    }

    constructor ()
      ensures Valid() && port == IDLE && !abandoned
    {
      rxSem, rxMutex, rxNum, port := false, false, 0, IDLE;
      abandoned := false;
    }

    /** The HAL reports on request `id`; events that are neither data nor an error change nothing. */
    method Callback(event: AppEvent, id: nat)
      requires Valid() && (event != EvtOther ==> id in port.outstanding)
      modifies this
      ensures Valid() && rxMutex == old(rxMutex) && abandoned == old(abandoned)
      ensures port ==
        match event
        case EvtRxData(size) => Apply(old(port), RxData(id, size))
        case EvtError => Apply(old(port), RxError(id))
        case EvtOther => old(port)
    {
      hide Orderly;
      if event.EvtRxData? {
        rxNum := event.size;
        rxSem := true;
        Record(RxData(id, event.size));
      } else if event.EvtError? {
        rxSem := true;
        Record(RxError(id));
      }
    }

    /** Advances the protocol. */
    method Record(e: Event)
      requires Enabled(port, e) && Apart(port) && (!abandoned ==> Orderly(port))
      modifies `port, `abandoned
      ensures port == Apply(old(port), e) && Apart(port) && (!abandoned ==> Orderly(port))
      ensures abandoned == (old(abandoned) || Abandons(old(port), e))
    {
      hide Orderly;
      ForeignKeepsPlace(port, 0, e);
      if !abandoned && !Abandons(port, e) {
        StepKeepsOrderly(port, e);
      }
      abandoned := abandoned || Abandons(port, e);
      port := Apply(port, e);
    }

    /** What one event does to semaphore, mutex and count. */
    method Step(e: Event)
      requires Valid() && Enabled(port, e)
      modifies this
      ensures Valid() && port == Apply(old(port), e)
      ensures abandoned == (old(abandoned) || Abandons(old(port), e))
    {
      hide Orderly;
      match e {
        case Lock(_) => rxMutex := true;
        case Zero => rxNum := 0;
        case Drain => rxSem := false;
        case Ask(accepted) =>
          if !accepted {
            rxMutex := false;
          }
        case RxData(id, size) =>
          Callback(EvtRxData(size), id);
          return;
        case RxError(id) =>
          Callback(EvtError, id);
          return;
        case Wake(ok) =>
          if ok {
            rxSem := false;
          } else {
            rxMutex := false;
          }
        case Unlock => rxMutex := false;
        case Load(_) =>
      }
      Record(e);
    }

    /** Whatever other readers and the HAL do at one point of reader `tid`; what they cannot do then is
        skipped. */
    method Interrupted(tid: nat, es: seq<Event>)
      requires Valid()
      modifies this
      ensures Valid() && PlaceOf(port, tid) == PlaceOf(old(port), tid) && port.nextId >= old(port.nextId)
      ensures (old(abandoned) ==> abandoned) && (Wake(false) !in es ==> abandoned == old(abandoned))
      ensures Zero !in es ==> port.zeroings == old(port.zeroings)
    {
      hide Orderly;
      hide Apply;
      for i := 0 to |es|
        invariant Valid() && PlaceOf(port, tid) == PlaceOf(old(port), tid) && port.nextId >= old(port.nextId)
        invariant (old(abandoned) ==> abandoned) && (Wake(false) !in es ==> abandoned == old(abandoned))
        invariant Zero !in es ==> port.zeroings == old(port.zeroings)
      {
        if Enabled(port, es[i]) && Foreign(port, tid, es[i]) {
          ForeignKeepsPlace(port, tid, es[i]);
          Step(es[i]);
        }
      }
    }

    /** Take the mutex, clear the count and the semaphore, start the receive. `sched` says what happens
        before each step. */
    method Begin(tid: nat, accepted: bool, sched: seq<seq<Event>>) returns (r: Entry, ghost id: nat)
      requires Valid() && PlaceOf(port, tid) == Outside
      modifies this
      ensures Valid() && (old(abandoned) ==> abandoned) && (Quiet(sched) ==> abandoned == old(abandoned))
      ensures PlaceOf(port, tid) == if r == Asking then Holding(Asked(id)) else Outside
      ensures r == Asking ==> accepted && old(port.nextId) <= id < port.nextId && id in port.outstanding
      ensures r == Asking && !abandoned ==> port.outstanding == {id} && !rxSem && rxNum == 0
      ensures r == Refused ==> !accepted && !rxMutex
      ensures r == NoMutex ==> rxMutex
    {
      hide Orderly;
      id := 0;
      Interrupted(tid, Others(sched, 0));
      if rxMutex {
        return NoMutex, id;
      }
      Step(Lock(tid));
      Interrupted(tid, Others(sched, 1));
      Step(Zero);
      Interrupted(tid, Others(sched, 2));
      Step(Drain);
      Interrupted(tid, Others(sched, 3));
      id := port.nextId;
      Step(Ask(accepted));
      if !accepted {
        return Refused, id;
      }
      if !abandoned {
        AskedAlone(port, tid, id);
      }
      return Asking, id;
    }

    /** Release the mutex and load the count. */
    method Leave(tid: nat, sched: seq<seq<Event>>, ghost id: nat) returns (ret: nat)
      requires Valid() && PlaceOf(port, tid) == Holding(Woken(id))
      modifies this
      ensures Valid() && (old(abandoned) ==> abandoned) && (Quiet(sched) ==> abandoned == old(abandoned))
      ensures PlaceOf(port, tid) == Outside && port.nextId >= old(port.nextId)
      ensures port.returned != []
      ensures var last := port.returned[|port.returned| - 1];
        && last.id == id && last.value == ret && (!abandoned ==> Told(port, last))
        && (Zero !in Others(sched, 6) ==> !last.overlapped)
    {
      hide Orderly;
      Interrupted(tid, Others(sched, 5));
      Step(Unlock);
      Interrupted(tid, Others(sched, 6));
      ret := rxNum;
      Step(Load(tid));
      if !abandoned {
        LastIsTold(port);
      }
    }

    /** One read, in any state of the port and with any steps of others between its own. `accepted` and
        `waitFails` are what the HAL and the semaphore answer. */
    method Read(tid: nat, useable: bool, accepted: bool, waitFails: bool, sched: seq<seq<Event>>)
      returns (r: ReadResult, ghost id: nat)
      requires Valid() && PlaceOf(port, tid) == Outside
      modifies this
      ensures Valid() && (old(abandoned) ==> abandoned)
      ensures Quiet(sched) && !waitFails ==> abandoned == old(abandoned)
      ensures !useable ==> r == Returned(HDF_FAILURE) && port == old(port)
      ensures r.Locked? ==> rxMutex && PlaceOf(port, tid) == Outside
      ensures r.Pending? ==> !rxSem && PlaceOf(port, tid) == Holding(Asked(id))
      ensures r.Returned? ==> PlaceOf(port, tid) == Outside
      ensures r.Returned? && (!useable || !accepted || waitFails) ==> r.ret == HDF_FAILURE
      ensures r.Returned? && useable && accepted && !waitFails ==>
        && port.returned != [] && old(port.nextId) <= id < port.nextId
        && var last := port.returned[|port.returned| - 1];
           && last.id == id && last.value == r.ret && (!abandoned ==> Told(port, last))
           && (Zero !in Others(sched, 6) ==> !last.overlapped)
    {
      hide Orderly;
      id := 0;
      if !useable {
        return Returned(HDF_FAILURE), id;
      }
      var entry;
      entry, id := Begin(tid, accepted, sched);
      if entry == NoMutex {
        return Locked, id;
      }
      if entry == Refused {
        return Returned(HDF_FAILURE), id;
      }
      Interrupted(tid, Others(sched, 4));
      if waitFails {
        Step(Wake(false));
        return Returned(HDF_FAILURE), id;
      }
      if !rxSem {
        return Pending, id;
      }
      Step(Wake(true));
      var ret := Leave(tid, sched, id);
      return Returned(ret), id;
    }
  }
}
