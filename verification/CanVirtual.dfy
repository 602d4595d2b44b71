/** The virtual CAN controller: bit timing from a table, configuration, and loop-back of messages. */
module CanVirtual {
  import opened Hdf

  const CAN_CLK: nat := 80_000_000

  datatype BusState = Reset | Ready | Busy

  const CAN_BUS_LOOPBACK: int := 1

  datatype SpeedConfig = SpeedConfig(speed: nat, sjw: nat, tsg1: nat, tsg2: nat, prescaler: nat)

  const SPEED_MAPS: seq<SpeedConfig> := [
    SpeedConfig(1_000_000, 2, 5, 2, 10),
    SpeedConfig(800_000, 2, 14, 5, 5),
    SpeedConfig(500_000, 2, 7, 2, 16),
    SpeedConfig(250_000, 2, 13, 2, 20),
    SpeedConfig(125_000, 2, 13, 2, 40),
    SpeedConfig(100_000, 2, 13, 2, 50),
    SpeedConfig(50_000, 2, 13, 2, 100),
    SpeedConfig(20_000, 2, 13, 2, 250),
    SpeedConfig(10_000, 2, 13, 2, 500)]

  predicate Supported(speed: nat) {
    exists i :: 0 <= i < |SPEED_MAPS| && SPEED_MAPS[i].speed == speed
  }

  /** The nine rates from 10 kbit/s to 1 Mbit/s are supported, and no other. */
  lemma SupportedIff(speed: nat)
    ensures Supported(speed) <==>
      speed in {10_000, 20_000, 50_000, 100_000, 125_000, 250_000, 500_000, 800_000, 1_000_000}
  {
    if speed in {10_000, 20_000, 50_000, 100_000, 125_000, 250_000, 500_000, 800_000, 1_000_000} {
      var i :=
        if speed == 1_000_000 then 0 else if speed == 800_000 then 1 else if speed == 500_000 then 2
        else if speed == 250_000 then 3 else if speed == 125_000 then 4 else if speed == 100_000 then 5
        else if speed == 50_000 then 6 else if speed == 20_000 then 7 else 8;
      assert SPEED_MAPS[i].speed == speed;
    }
  }

  /** The segments of an entry follow from its rate: below 500 kbit/s all have sixteen quanta, and the
      prescaler makes up the rate. */
  lemma SegmentsOf(i: nat)
    requires i < |SPEED_MAPS|
    ensures SPEED_MAPS[i].sjw == 2
    ensures SPEED_MAPS[i].tsg2 == if SPEED_MAPS[i].speed == 800_000 then 5 else 2
    ensures SPEED_MAPS[i].tsg1 ==
      if SPEED_MAPS[i].speed == 1_000_000 then 5 else if SPEED_MAPS[i].speed == 800_000 then 14
      else if SPEED_MAPS[i].speed == 500_000 then 7 else 13
    ensures SPEED_MAPS[i].prescaler == CAN_CLK / (SPEED_MAPS[i].speed * (1 + SPEED_MAPS[i].tsg1 + SPEED_MAPS[i].tsg2))
  {
  }

  lemma TableIsTimed()
    ensures forall i | 0 <= i < |SPEED_MAPS| ::
      SPEED_MAPS[i].speed * (SPEED_MAPS[i].prescaler * (1 + SPEED_MAPS[i].tsg1 + SPEED_MAPS[i].tsg2)) == CAN_CLK
  {
  }

  datatype Call = SetCfg(speed: nat, mode: int) | SendMsg(msg: nat)

  /** Whether a call returns success. */
  predicate Succeeds(c: Call) {
    c.SendMsg? || (Supported(c.speed) && c.mode == CAN_BUS_LOOPBACK)
  }

  /** The last call decides the bus state between calls: reset exactly after a refused configuration. */
  function ExpectedBus(calls: seq<Call>): BusState {
    if calls == [] || Succeeds(calls[|calls| - 1]) then Ready else Reset
  }

  function ExpectedRate(initial: nat, calls: seq<Call>): nat {
    if calls == [] then initial
    else
      var c := calls[|calls| - 1];
      if c.SetCfg? && Supported(c.speed) then c.speed else ExpectedRate(initial, calls[..|calls| - 1])
  }

  function Sent(calls: seq<Call>): seq<nat> {
    if calls == [] then []
    else
      Sent(calls[..|calls| - 1]) + if calls[|calls| - 1].SendMsg? then [calls[|calls| - 1].msg] else []
  }

  lemma NextCall(calls: seq<Call>, c: Call, initial: nat)
    ensures ExpectedBus(calls + [c]) == if Succeeds(c) then Ready else Reset
    ensures ExpectedRate(initial, calls + [c]) ==
      if c.SetCfg? && Supported(c.speed) then c.speed else ExpectedRate(initial, calls)
    ensures Sent(calls + [c]) == Sent(calls) + if c.SendMsg? then [c.msg] else []
  {
  }

  class VirtualCanCntlr {
    var workMode: int
    var bitRate: nat
    var syncJumpWidth: nat
    var timeSeg1: nat
    var timeSeg2: nat
    var prescaler: nat
    var busState: BusState
    var delivered: seq<nat>

    // the calls since a successful initialisation, and the rate it chose
    ghost var calls: seq<Call>
    ghost var initialRate: nat

    /** The bit rate is the one the clock, the prescaler and the segments produce. */
    ghost predicate Timed()
      reads this
    {
      bitRate * (prescaler * (1 + timeSeg1 + timeSeg2)) == CAN_CLK
    }

    /** Rate, jump width, segments and prescaler, as an entry of the table. */
    ghost function Timing(): SpeedConfig
      reads this
    {
      SpeedConfig(bitRate, syncJumpWidth, timeSeg1, timeSeg2, prescaler)
    }

    /** What holds between calls after a successful initialisation. */
    ghost predicate Valid()
      reads this
    {
      && Timed() && Timing() in SPEED_MAPS && workMode == CAN_BUS_LOOPBACK
      && busState == ExpectedBus(calls) && bitRate == ExpectedRate(initialRate, calls)
      && delivered == Sent(calls)
    }

    /** `hcs` are the mode and rate read from the configuration, replacing the defaults. */
    constructor (hcsMode: int, hcsRate: nat)
      ensures Supported(hcsRate) && hcsMode == CAN_BUS_LOOPBACK ==> Valid() && calls == [] && bitRate == hcsRate
      ensures !(Supported(hcsRate) && hcsMode == CAN_BUS_LOOPBACK) ==> busState == Reset
    {
      workMode, bitRate := hcsMode, hcsRate;
      syncJumpWidth, timeSeg1, timeSeg2, prescaler := 0, 0, 0, 0;
      busState, delivered, calls, initialRate := Reset, [], [], hcsRate;
      new;
      var ret := SetBitRate(bitRate);
      if ret != HDF_SUCCESS {
        return;
      }
      ret := SetMode(workMode);
      if ret != HDF_SUCCESS {
        return;
      }
      busState := Ready;
    }

    method SetBitRate(speed: nat) returns (ret: int)
      modifies `syncJumpWidth, `timeSeg1, `timeSeg2, `prescaler, `bitRate
      ensures ret == if Supported(speed) then HDF_SUCCESS else HDF_ERR_NOT_SUPPORT
      ensures ret == HDF_SUCCESS ==> Timed() && Timing() in SPEED_MAPS && bitRate == speed
      ensures ret != HDF_SUCCESS ==> Timing() == old(Timing())
    {
      var i := 0;
      while i < |SPEED_MAPS|
        invariant i <= |SPEED_MAPS|
        invariant forall j | 0 <= j < i :: SPEED_MAPS[j].speed != speed
      {
        if SPEED_MAPS[i].speed == speed {
          break;
        }
        i := i + 1;
      }
      if i >= |SPEED_MAPS| {
        return HDF_ERR_NOT_SUPPORT;
      }
      var cfgMap := SPEED_MAPS[i];
      syncJumpWidth, timeSeg1, timeSeg2, prescaler := cfgMap.sjw, cfgMap.tsg1, cfgMap.tsg2, cfgMap.prescaler;
      bitRate := speed;
      TableIsTimed();
      return HDF_SUCCESS;
    }

    method SetMode(mode: int) returns (ret: int)
      modifies `workMode
      ensures ret == if mode == CAN_BUS_LOOPBACK then HDF_SUCCESS else HDF_ERR_NOT_SUPPORT
      ensures workMode == if mode == CAN_BUS_LOOPBACK then CAN_BUS_LOOPBACK else old(workMode)
    {
      if mode == CAN_BUS_LOOPBACK {
        workMode := CAN_BUS_LOOPBACK;
        return HDF_SUCCESS;
      }
      return HDF_ERR_NOT_SUPPORT;
    }

    /** Even a refused configuration keeps the timing consistent; only the bus is left in reset. */
    method SetConfig(speed: nat, mode: int) returns (ret: int)
      requires Valid()
      modifies this
      ensures Valid() && calls == old(calls) + [SetCfg(speed, mode)] && initialRate == old(initialRate)
      ensures ret == HDF_SUCCESS <==> Supported(speed) && mode == CAN_BUS_LOOPBACK
      ensures ret == HDF_SUCCESS || ret == HDF_ERR_NOT_SUPPORT
      ensures busState == (if ret == HDF_SUCCESS then Ready else Reset) && delivered == old(delivered)
      ensures bitRate == if Supported(speed) then speed else old(bitRate)
    {
      hide ExpectedBus;
      hide ExpectedRate;
      hide Sent;
      hide Supported;
      NextCall(calls, SetCfg(speed, mode), initialRate);
      calls := calls + [SetCfg(speed, mode)];
      busState := Reset;
      ret := SetBitRate(speed);
      if ret != HDF_SUCCESS {
        return;
      }
      ret := SetMode(mode);
      if ret != HDF_SUCCESS {
        return;
      }
      busState := Ready;
    }

    method Send(msg: nat) returns (ret: int)
      requires Valid()
      modifies this
      ensures Valid() && calls == old(calls) + [SendMsg(msg)] && initialRate == old(initialRate)
      ensures busState == Ready && delivered == old(delivered) + [msg] && Timing() == old(Timing())
      ensures ret == HDF_SUCCESS
    {
      hide ExpectedBus;
      hide ExpectedRate;
      hide Sent;
      NextCall(calls, SendMsg(msg), initialRate);
      calls := calls + [SendMsg(msg)];
      busState := Busy;
      ret := LoopBack(msg);
    }

    method LoopBack(msg: nat) returns (ret: int)
      modifies `busState, `delivered
      ensures busState == Ready && delivered == old(delivered) + [msg] && ret == HDF_SUCCESS
    {
      busState := Ready;
      delivered := delivered + [msg];
      return HDF_SUCCESS;
    }
  }
}
