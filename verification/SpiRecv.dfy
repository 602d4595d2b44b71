/** BES SPI receive: a transfer cut into windows of at most 4095 bytes under a mutex. */
module SpiRecv {
  import opened Hdf

  const SPI_DMA_MAX: nat := 4095

  datatype Window = Window(offset: nat, length: nat)

  /** What the HAL answers to one receive call and, with DMA, what the wait for its completion returns. */
  datatype Reply = Reply(ret: int, wait: int)

  /** The windows a transfer of `size` bytes needs from `offset` on. */
  function Windows(offset: nat, size: nat): seq<Window>
    requires offset <= size
    decreases size - offset
  {
    if offset == size then []
    else
      var length := Min(size - offset, SPI_DMA_MAX);
      [Window(offset, length)] + Windows(offset + length, size)
  }

  lemma NextWindow(offset: nat, size: nat)
    requires offset <= size
    ensures offset < size ==>
      var length := Min(size - offset, SPI_DMA_MAX);
      Windows(offset, size) == [Window(offset, length)] + Windows(offset + length, size)
    ensures Windows(size, size) == []
  {
  }

  function End(ws: seq<Window>): nat {
    if ws == [] then 0 else ws[|ws| - 1].offset + ws[|ws| - 1].length
  }

  /** The windows lie end to end, cover `[offset, size)` exactly, are full except perhaps the last, and
      there are `ceil((size - offset) / 4095)` of them. */
  lemma {:induction false} WindowsTile(offset: nat, size: nat)
    requires offset <= size
    ensures var ws := Windows(offset, size);
      && |ws| == (size - offset + SPI_DMA_MAX - 1) / SPI_DMA_MAX
      && (ws != [] ==> ws[0].offset == offset && End(ws) == size)
      && (forall k | 0 <= k < |ws| :: 1 <= ws[k].length <= SPI_DMA_MAX)
      && (forall k | 0 <= k < |ws| - 1 ::
            ws[k].length == SPI_DMA_MAX && ws[k + 1].offset == ws[k].offset + ws[k].length)
    decreases size - offset
  {
    NextWindow(offset, size);
    hide Windows;
    if offset < size {
      var length := Min(size - offset, SPI_DMA_MAX);
      WindowsTile(offset + length, size);
      var ws, rest := Windows(offset, size), Windows(offset + length, size);
      assert ws == [Window(offset, length)] + rest;
      assert rest == [] <==> length == size - offset;
    }
  }

  /** A call after which the loop is left early. */
  predicate Stops(dma: bool, r: Reply) {
    r.ret != 0 || (dma && r.wait <= 0)
  }

  /** Whether a call filled its window. A DMA call only starts the transfer: the window is filled once the
      completion has posted the semaphore the wait is for. */
  predicate Filled(dma: bool, r: Reply) {
    r.ret == 0 && (dma ==> r.wait == HDF_SUCCESS)
  }

  /** Byte `i` arrived in a run of `n` calls: its window was asked for and filled. */
  predicate Received(dma: bool, hal: nat -> Reply, n: nat, i: nat) {
    i / SPI_DMA_MAX < n && Filled(dma, hal(i / SPI_DMA_MAX))
  }

  class SpiContext {
    var locked: bool
    var locks: nat
    var unlocks: nat

    constructor ()
      ensures !locked && locks == unlocks == 0
    {
      locked, locks, unlocks := false, 0, 0;
    }

    /** `line` gives the bytes on the bus and `hal` the answers to the calls in order. `windows` are the
        calls made: always the first windows of the transfer, up to the first that stops it. A byte of the
        buffer holds the byte of the bus exactly if it was received, and is otherwise as it was. */
    method HalSpiRecv(data: array<int>, size: nat, dma: bool, lockOk: bool, hal: nat -> Reply, line: nat -> int)
      returns (ret: int, windows: seq<Window>)
      requires !locked && size <= data.Length
      modifies this, data
      ensures !locked && locks - unlocks == old(locks) - old(unlocks)
      ensures size == 0 ==> ret == HDF_ERR_INVALID_PARAM && windows == [] && locks == old(locks)
      ensures size > 0 && !lockOk ==> ret == HDF_ERR_TIMEOUT && windows == [] && locks == old(locks)
      ensures size > 0 && lockOk ==>
        && unlocks == old(unlocks) + 1 && Performed(size, dma, hal, |windows|)
        && windows == Windows(0, size)[..|windows|]
        && ret == hal(|windows| - 1).ret
      ensures forall i | 0 <= i < data.Length ::
        data[i] == if i < size && Received(dma, hal, |windows|, i) then line(i) else old(data[i])
    {
      hide Windows;
      windows := [];
      if size == 0 {
        return HDF_ERR_INVALID_PARAM, windows;
      }
      if !lockOk {
        return HDF_ERR_TIMEOUT, windows;
      }
      locked, locks := true, locks + 1;
      var len, offset := size, 0;
      ret := 0;
      assert windows + Windows(0, size) == Windows(0, size);
      while true
        invariant offset + len == size && len > 0 && offset == SPI_DMA_MAX * |windows|
        invariant Windows(0, size) == windows + Windows(offset, size)
        invariant forall k | 0 <= k < |windows| :: !Stops(dma, hal(k))
        invariant forall i | 0 <= i < data.Length ::
          data[i] == if i < size && Received(dma, hal, |windows|, i) then line(i) else old(data[i])
        invariant locked && locks == old(locks) + 1 && unlocks == old(unlocks)
        decreases len
      {
        var remainder := if len <= SPI_DMA_MAX then len else SPI_DMA_MAX;
        var reply := hal(|windows|);
        Receive(data, offset, remainder, dma, reply, line);
        windows := windows + [Window(offset, remainder)];
        NextWindow(offset, size);
        assert Windows(0, size) == windows + Windows(offset + remainder, size);
        ret := reply.ret;
        if dma {
          if reply.wait <= 0 {
            break;
          }
        }
        len := len - remainder;
        offset := offset + remainder;
        if ret != 0 {
          break;
        }
        if len == 0 {
          break;
        }
      }
      locked, unlocks := false, unlocks + 1;
    }

    /** One HAL call, with DMA up to the end of the wait: it fills its window from the bus or writes nothing. */
    method Receive(data: array<int>, offset: nat, length: nat, dma: bool, reply: Reply, line: nat -> int)
      requires offset + length <= data.Length
      modifies data
      ensures forall i | 0 <= i < data.Length ::
        data[i] == if offset <= i < offset + length && Filled(dma, reply) then line(i) else old(data[i])
    {
      if Filled(dma, reply) {
        forall i | offset <= i < offset + length {
          data[i] := line(i);
        }
      }
    }
  }

  /** A run of HAL calls as `HalSpiRecv` leaves it. */
  predicate Performed(size: nat, dma: bool, hal: nat -> Reply, n: nat) {
    && 1 <= n <= |Windows(0, size)|
    && (forall k | 0 <= k < n - 1 :: !Stops(dma, hal(k)))
    && (n < |Windows(0, size)| ==> Stops(dma, hal(n - 1)))
  }

  /** Every byte of the transfer arrived. */
  predicate Complete(size: nat, dma: bool, hal: nat -> Reply, n: nat) {
    forall i: nat | i < size :: Received(dma, hal, n, i)
  }

  /** Without DMA the call returns success if and only if every byte was received. */
  lemma SuccessIsComplete(size: nat, hal: nat -> Reply, n: nat)
    requires Performed(size, false, hal, n)
    ensures hal(n - 1).ret == 0 <==> Complete(size, false, hal, n)
  {
    WindowsTile(0, size);
    if hal(n - 1).ret == 0 {
      forall i: nat | i < size ensures Received(false, hal, n, i) {
        var k := i / SPI_DMA_MAX;
        assert k < n;
        assert k < n - 1 ==> !Stops(false, hal(k));
      }
    } else {
      assert !Received(false, hal, n, SPI_DMA_MAX * (n - 1));
    }
  }

  /** With DMA a successful wait returns zero, which the loop takes for a timeout: whenever waits return
      no positive value, as documented, exactly one window is asked for. A result of success then means
      that every byte was received if and only if the transfer fits one window and its wait succeeded. */
  lemma DmaStopsAfterFirstWindow(size: nat, hal: nat -> Reply, n: nat)
    requires Performed(size, true, hal, n) && forall k: nat :: hal(k).wait <= 0
    ensures n == 1
    ensures hal(0).ret == 0 ==>
      (Complete(size, true, hal, n) <==> size <= SPI_DMA_MAX && hal(0).wait == HDF_SUCCESS)
  {
    WindowsTile(0, size);
    assert Stops(true, hal(0));
    if size > SPI_DMA_MAX {
      assert !Received(true, hal, n, SPI_DMA_MAX);
    } else {
      assert Received(true, hal, n, 0) ==> hal(0).wait == HDF_SUCCESS;
    }
  }

  /** A transfer of any size whose first wait times out is one call long, returns what the call returned,
      success included, and receives nothing. */
  lemma DmaTimeoutReportsSuccess(size: nat, hal: nat -> Reply)
    requires size > 0 && hal(0) == Reply(HDF_SUCCESS, HDF_ERR_TIMEOUT)
    ensures Performed(size, true, hal, 1) && hal(0).ret == HDF_SUCCESS
    ensures forall n: nat | Performed(size, true, hal, n) :: n == 1
    ensures forall i: nat :: !Received(true, hal, 1, i)
  {
    WindowsTile(0, size);
    assert Stops(true, hal(0));
  }

  /** A transfer that needs a second window stops short with success although every wait succeeds. */
  lemma DmaLongTransferIsCut(size: nat, hal: nat -> Reply)
    requires size > SPI_DMA_MAX && hal(0) == Reply(HDF_SUCCESS, HDF_SUCCESS)
    ensures Performed(size, true, hal, 1) && hal(0).ret == HDF_SUCCESS
    ensures forall i: nat :: Received(true, hal, 1, i) <==> i < SPI_DMA_MAX
  {
    WindowsTile(0, size);
  }
}
