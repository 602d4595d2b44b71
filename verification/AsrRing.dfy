/**
 The 512-byte receive ring shared by the UART interrupt and the reading thread, as a state machine
 over atomic events, with the streams of received and delivered bytes recorded beside it.
 */
module AsrRing {
  import opened Hdf

  const UART_RX_BUF_LEN: nat := 512

  /** The interrupt stores a byte; the reader compares head and tail; the reader takes a byte. Any
      number of `Arrived` events may fall between a test and the take that follows it. */
  datatype Event = Arrived(b: byte) | Tested | Taken

  /** The contents of a freshly allocated ring. */
  const ZEROS: seq<byte> := seq(UART_RX_BUF_LEN, _ => 0)

  /** The ring slot of a running index. */
  function Slot(i: nat): (r: nat)
    ensures r < UART_RX_BUF_LEN
  {
    i % UART_RX_BUF_LEN
  }

  /** `at[i]` is the number of bytes that had been received when byte `i` was delivered; `ready` says
      that the reader has seen head and tail differ and not yet taken a byte. */
  datatype Session = Session(
    buf: seq<byte>, head: nat, tail: nat, ready: bool,
    received: seq<byte>, delivered: seq<byte>, at: seq<nat>)

  predicate Shaped(s: Session) {
    |s.buf| == UART_RX_BUF_LEN && s.head < UART_RX_BUF_LEN && s.tail < UART_RX_BUF_LEN
  }

  /** A session over a buffer whose indices are as a previous session left them. */
  function Opened(buf: seq<byte>, head: nat, tail: nat): Session {
    Session(buf, head, tail, false, [], [], [])
  }

  function Apply(s: Session, e: Event): (r: Session)
    requires Shaped(s)
    ensures Shaped(r)
  {
    match e
    case Arrived(b) =>
      s.(buf := s.buf[s.head := b], head := Slot(s.head + 1), received := s.received + [b])
    case Tested => s.(ready := s.head != s.tail)
    case Taken =>
      s.(tail := Slot(s.tail + 1), ready := false,
         delivered := s.delivered + [s.buf[s.tail]], at := s.at + [|s.received|])
  }

  /** The state after the events `es`, oldest first. */
  function Replay(s: Session, es: seq<Event>): (r: Session)
    requires Shaped(s)
    ensures Shaped(r)
  {
    if es == [] then s else Apply(Replay(s, es[..|es| - 1]), es[|es| - 1])
  }

  /** The reader takes a byte only after a test that found the indices different. */
  predicate Legal(s: Session, es: seq<Event>)
    requires Shaped(s)
  {
    es == [] ||
    (Legal(s, es[..|es| - 1]) && (es[|es| - 1] == Taken ==> Replay(s, es[..|es| - 1]).ready))
  }

  lemma NoEvents(s: Session)
    requires Shaped(s)
    ensures Replay(s, []) == s && Legal(s, [])
  {
  }

  lemma ReplaySnoc(s: Session, es: seq<Event>, e: Event)
    requires Shaped(s)
    ensures Replay(s, es + [e]) == Apply(Replay(s, es), e)
    ensures Legal(s, es + [e]) <==> Legal(s, es) && (e == Taken ==> Replay(s, es).ready)
  {
  }

  lemma TurnsKeepSlot(h: nat, i: nat, turns: nat)
    ensures Slot(h + (i + UART_RX_BUF_LEN * turns)) == Slot(h + i)
  {
  }

  lemma SlotSteps(i: nat)
    ensures Slot(Slot(i) + 1) == Slot(i + 1)
  {
  }

  lemma SlotsDiffer(h: nat, j: nat, r: nat)
    requires j < r
    ensures Slot(h + j) != Slot(h + r) <==> (r - j) % UART_RX_BUF_LEN != 0
  {
  }

  /** The largest stream index below `n` that shares the ring slot of index `i`. */
  function Latest(i: nat, n: nat): (j: nat)
    requires i < n
    ensures i <= j < n <= j + UART_RX_BUF_LEN && Slot(j) == Slot(i)
  {
    var turns := (n - 1 - i) / UART_RX_BUF_LEN;
    TurnsKeepSlot(0, i, turns);
    i + UART_RX_BUF_LEN * turns
  }

  /** The bytes between the indices a session starts with: the reader takes them for unread ones. */
  function Leftover(buf: seq<byte>, head: nat, tail: nat): (r: seq<byte>)
    requires Shaped(Opened(buf, head, tail))
    ensures |r| < UART_RX_BUF_LEN && Slot(tail + |r|) == head
  {
    seq((head + UART_RX_BUF_LEN - tail) % UART_RX_BUF_LEN, j requires 0 <= j => buf[Slot(tail + j)])
  }

  /** What the reader has to deliver: the leftover, then the bytes received. */
  function Stream(pre: seq<byte>, s: Session): seq<byte> {
    pre + s.received
  }

  function Unread(pre: seq<byte>, s: Session): int {
    |Stream(pre, s)| - |s.delivered|
  }

  /** Head and tail follow the streams of a session that began with its tail at `t`. */
  predicate Tracks(t: nat, pre: seq<byte>, s: Session) {
    var r, d := |pre| + |s.received|, |s.delivered|;
    && Shaped(s)
    && s.head == Slot(t + r) && s.tail == Slot(t + d)
    && d <= r && (s.ready ==> d < r)
  }

  /** The ring holds the last 512 bytes of the stream, each in its slot. */
  predicate Stored(t: nat, stream: seq<byte>, buf: seq<byte>) {
    && |buf| == UART_RX_BUF_LEN
    && forall j | 0 <= j < |stream| <= j + UART_RX_BUF_LEN :: buf[Slot(t + j)] == stream[j]
  }

  /** Each byte delivered was the latest in its slot when it was taken. */
  predicate Served(pre: seq<byte>, s: Session) {
    && |s.at| == |s.delivered|
    && forall i | 0 <= i < |s.delivered| ::
         && i < |pre| + s.at[i] <= |pre| + |s.received|
         && s.delivered[i] == Stream(pre, s)[Latest(i, |pre| + s.at[i])]
  }

  /** What the ring contains, in terms of the two streams, in a session that began with its tail at `t`
      and the leftover `pre`. */
  predicate Exact(t: nat, pre: seq<byte>, s: Session) {
    Tracks(t, pre, s) && Stored(t, Stream(pre, s), s.buf) && Served(pre, s)
  }

  lemma OpenedIsExact(buf: seq<byte>, head: nat, tail: nat)
    requires Shaped(Opened(buf, head, tail))
    ensures Exact(tail, Leftover(buf, head, tail), Opened(buf, head, tail))
  {
  }

  lemma StoringKeepsStored(t: nat, stream: seq<byte>, buf: seq<byte>, b: byte)
    requires Stored(t, stream, buf)
    ensures Stored(t, stream + [b], buf[Slot(t + |stream|) := b])
  {
    var stream', buf' := stream + [b], buf[Slot(t + |stream|) := b];
    forall j | 0 <= j < |stream'| <= j + UART_RX_BUF_LEN ensures buf'[Slot(t + j)] == stream'[j] {
      if j < |stream| {
        SlotsDiffer(t, j, |stream|);
      }
    }
  }

  lemma ArrivedKeepsExact(t: nat, pre: seq<byte>, s: Session, b: byte)
    requires Exact(t, pre, s)
    ensures Exact(t, pre, Apply(s, Arrived(b)))
  {
    var r, s' := |pre| + |s.received|, Apply(s, Arrived(b));
    SlotSteps(t + r);
    assert Stream(pre, s') == Stream(pre, s) + [b];
    StoringKeepsStored(t, Stream(pre, s), s.buf, b);
    hide Stored;
  }

  lemma TakenIsLatest(t: nat, stream: seq<byte>, buf: seq<byte>, d: nat)
    requires Stored(t, stream, buf) && d < |stream|
    ensures buf[Slot(t + d)] == stream[Latest(d, |stream|)]
  {
    TurnsKeepSlot(t, d, (|stream| - 1 - d) / UART_RX_BUF_LEN);
  }

  lemma TakingKeepsServed(pre: seq<byte>, s: Session)
    requires Served(pre, s) && |s.delivered| < |pre| + |s.received| && s.tail < |s.buf| == UART_RX_BUF_LEN
    requires s.buf[s.tail] == Stream(pre, s)[Latest(|s.delivered|, |pre| + |s.received|)]
    ensures Served(pre, s.(delivered := s.delivered + [s.buf[s.tail]], at := s.at + [|s.received|]))
  {
    hide Latest;
  }

  lemma TakenKeepsExact(t: nat, pre: seq<byte>, s: Session)
    requires Exact(t, pre, s) && s.ready
    ensures Exact(t, pre, Apply(s, Taken))
  {
    hide Stored;
    hide Latest;
    var d := |s.delivered|;
    SlotSteps(t + d);
    TakenIsLatest(t, Stream(pre, s), s.buf, d);
    TakingKeepsServed(pre, s);
  }

  lemma ApplyKeepsExact(t: nat, pre: seq<byte>, s: Session, e: Event)
    requires Exact(t, pre, s) && (e == Taken ==> s.ready)
    ensures Exact(t, pre, Apply(s, e))
  {
    match e
    case Arrived(b) => ArrivedKeepsExact(t, pre, s, b);
    case Tested => assert Stream(pre, Apply(s, Tested)) == Stream(pre, s);
    case Taken => TakenKeepsExact(t, pre, s);
  }

  /** In every interleaving of interrupts and reader steps, overflowing or not and whatever indices the
      session inherited, head and tail follow the two streams and every byte delivered is the latest one
      stored in its slot. */
  lemma {:induction false} RingIsExact(buf: seq<byte>, head: nat, tail: nat, es: seq<Event>)
    requires Shaped(Opened(buf, head, tail)) && Legal(Opened(buf, head, tail), es)
    ensures Exact(tail, Leftover(buf, head, tail), Replay(Opened(buf, head, tail), es))
    decreases |es|
  {
    hide Exact;
    var s := Opened(buf, head, tail);
    if es == [] {
      OpenedIsExact(buf, head, tail);
      assert Replay(s, es) == s;
    } else {
      var n := |es| - 1;
      RingIsExact(buf, head, tail, es[..n]);
      ApplyKeepsExact(tail, Leftover(buf, head, tail), Replay(s, es[..n]), es[n]);
    }
  }

  /** A test finds bytes exactly when the number of unread bytes is not a multiple of the ring size:
      a full ring looks empty. */
  lemma TestSeesUnread(t: nat, pre: seq<byte>, s: Session)
    requires Exact(t, pre, s)
    ensures Apply(s, Tested).ready <==> Unread(pre, s) % UART_RX_BUF_LEN != 0
  {
  }

  /** Delivered byte `i` is byte `i` of the stream exactly when at most 512 bytes were unread at that
      moment; otherwise the reader has skipped ahead. */
  lemma DeliveredInPlace(t: nat, pre: seq<byte>, s: Session, i: nat)
    requires Exact(t, pre, s) && i < |s.delivered|
    ensures Latest(i, |pre| + s.at[i]) == i <==> |pre| + s.at[i] - i <= UART_RX_BUF_LEN
    ensures |pre| + s.at[i] - i <= UART_RX_BUF_LEN ==> s.delivered[i] == Stream(pre, s)[i]
  {
  }

  /** At most `limit` bytes were unread when the delivered bytes were taken. */
  ghost predicate TakenBelow(pre: seq<byte>, s: Session, limit: nat) {
    forall i | 0 <= i < |s.at| :: |pre| + s.at[i] - i <= limit
  }

  /** The ring loses, repeats and reorders nothing if at most 512 bytes are unread at every take. */
  lemma RingIsFifo(t: nat, pre: seq<byte>, s: Session)
    requires Exact(t, pre, s) && TakenBelow(pre, s, UART_RX_BUF_LEN)
    ensures s.delivered <= Stream(pre, s)
  {
    forall i | 0 <= i < |s.delivered| ensures s.delivered[i] == Stream(pre, s)[i] {
      DeliveredInPlace(t, pre, s, i);
    }
  }

  /** At most `limit` bytes are unread in every state of the run. */
  ghost predicate NeverAbove(pre: seq<byte>, s: Session, es: seq<Event>, limit: nat)
    requires Shaped(s)
  {
    forall k | 0 <= k <= |es| :: Unread(pre, Replay(s, es[..k])) <= limit
  }

  lemma {:induction false} TakesBelow(pre: seq<byte>, s: Session, es: seq<Event>, limit: nat)
    requires Shaped(s) && s.at == [] == s.delivered && NeverAbove(pre, s, es, limit)
    ensures Unread(pre, Replay(s, es)) <= limit
    ensures |Replay(s, es).at| == |Replay(s, es).delivered| && TakenBelow(pre, Replay(s, es), limit)
    decreases |es|
  {
    assert es[..|es|] == es;
    if es != [] {
      var n := |es| - 1;
      forall k | 0 <= k <= n ensures es[..n][..k] == es[..k] {
      }
      TakesBelow(pre, s, es[..n], limit);
    }
  }

  lemma BelowLimitIsFifo(t: nat, pre: seq<byte>, s: Session)
    requires Exact(t, pre, s)
    requires TakenBelow(pre, s, UART_RX_BUF_LEN - 1) && Unread(pre, s) <= UART_RX_BUF_LEN - 1
    ensures s.delivered <= Stream(pre, s)
    ensures !Apply(s, Tested).ready <==> s.delivered == Stream(pre, s)
  {
    RingIsFifo(t, pre, s);
    TestSeesUnread(t, pre, s);
  }

  /** While at most 511 bytes are unread the ring is a queue: what has been delivered is a prefix of the
      leftover followed by what was received, and a reader is told that the ring is empty only when it is. */
  lemma RunBelowLimitIsFifo(buf: seq<byte>, head: nat, tail: nat, es: seq<Event>)
    requires Shaped(Opened(buf, head, tail)) && Legal(Opened(buf, head, tail), es)
    requires NeverAbove(Leftover(buf, head, tail), Opened(buf, head, tail), es, UART_RX_BUF_LEN - 1)
    ensures var s, pre := Replay(Opened(buf, head, tail), es), Leftover(buf, head, tail);
      && s.delivered <= Stream(pre, s)
      && (!Apply(s, Tested).ready <==> s.delivered == Stream(pre, s))
  {
    hide Replay;
    hide Legal;
    hide Exact;
    hide Leftover;
    hide TakenBelow;
    var pre, s := Leftover(buf, head, tail), Replay(Opened(buf, head, tail), es);
    RingIsExact(buf, head, tail, es);
    TakesBelow(pre, Opened(buf, head, tail), es, UART_RX_BUF_LEN - 1);
    BelowLimitIsFifo(tail, pre, s);
  }

  /** `n` bytes read, with no interrupt in between. */
  function Takes(n: nat): seq<Event> {
    if n == 0 then [] else Takes(n - 1) + [Tested] + [Taken]
  }

  lemma NextTake(s: Session, n: nat)
    requires Shaped(s) && n > 0
    ensures var before := Replay(s, Takes(n - 1));
      && Replay(s, Takes(n)) == Apply(Apply(before, Tested), Taken)
      && (Legal(s, Takes(n)) <==> Legal(s, Takes(n - 1)) && Apply(before, Tested).ready)
  {
    ReplaySnoc(s, Takes(n - 1), Tested);
    ReplaySnoc(s, Takes(n - 1) + [Tested], Taken);
  }

  lemma LeftoverFirst(t: nat, pre: seq<byte>, s: Session)
    requires Exact(t, pre, s) && |pre| < UART_RX_BUF_LEN && s.received == [] && s.delivered <= pre
    ensures Apply(s, Tested).ready <==> |s.delivered| < |pre|
    ensures |s.delivered| < |pre| ==>
      var r := Apply(Apply(s, Tested), Taken);
      r.received == [] && r.delivered == pre[..|s.delivered| + 1]
  {
    assert Stream(pre, s) == pre;
  }

  lemma StaleStep(s: Session, t: nat, pre: seq<byte>, n: nat)
    requires Shaped(s) && |pre| < UART_RX_BUF_LEN && n > 0
    requires Legal(s, Takes(n - 1)) <==> n - 1 <= |pre|
    requires n - 1 <= |pre| ==>
      var before := Replay(s, Takes(n - 1));
      Exact(t, pre, before) && before.received == [] && before.delivered == pre[..n - 1]
    ensures Legal(s, Takes(n)) <==> n <= |pre|
    ensures n <= |pre| ==> var after := Replay(s, Takes(n)); after.received == [] && after.delivered == pre[..n]
  {
    hide Replay;
    hide Legal;
    hide Takes;
    hide Exact;
    hide Apply;
    NextTake(s, n);
    if n - 1 <= |pre| {
      LeftoverFirst(t, pre, Replay(s, Takes(n - 1)));
    }
  }

  /** Opening does not reset the indices. A reader gets `n` bytes of a session in which none has arrived
      exactly when the previous session left a gap of at least `n` between them, and what it gets is the
      fresh buffer. */
  lemma {:induction false} StaleBytes(buf: seq<byte>, head: nat, tail: nat, n: nat)
    requires Shaped(Opened(buf, head, tail))
    ensures Legal(Opened(buf, head, tail), Takes(n)) <==> n <= |Leftover(buf, head, tail)|
    ensures n <= |Leftover(buf, head, tail)| ==>
      var s := Replay(Opened(buf, head, tail), Takes(n));
      s.received == [] && s.delivered == Leftover(buf, head, tail)[..n]
    decreases n
  {
    if n > 0 {
      hide Exact;
      hide Replay;
      hide Legal;
      hide Leftover;
      StaleBytes(buf, head, tail, n - 1);
      if n - 1 <= |Leftover(buf, head, tail)| {
        RingIsExact(buf, head, tail, Takes(n - 1));
      }
      StaleStep(Opened(buf, head, tail), tail, Leftover(buf, head, tail), n);
    }
  }
}
