/** BES GPIO interrupts: decoding configured pins, arming a pin with the trigger set for it, and routing
    its interrupt back to the gpio number by linear search. */
module GpioIrq {
  import opened Hdf

  const DECIMALNUM: nat := 10
  const OCTALNUM: nat := 8

  const OSAL_IRQF_TRIGGER_RISING: nat := 1
  const OSAL_IRQF_TRIGGER_FALLING: nat := 2
  const OSAL_IRQF_TRIGGER_HIGH: nat := 4
  const OSAL_IRQF_TRIGGER_LOW: nat := 8

  // ---- Pin decoding ----

  /** A real pin is written in decimal as group and pin, eight pins to a group. */
  function Decode(realPin: nat): nat {
    realPin / DECIMALNUM * OCTALNUM + realPin % DECIMALNUM
  }

  function Encode(pin: nat): nat {
    pin / OCTALNUM * DECIMALNUM + pin % OCTALNUM
  }

  /** The digits of a real pin: tens and up are the group, the last one the pin in it. */
  lemma DecodeDigits(group: nat, d: nat)
    requires d < 10
    ensures Decode(10 * group + d) == 8 * group + d
  {
  }

  /** Decoding is injective on the real pins whose last digit is below eight. */
  lemma DecodeIsBijective(a: nat, b: nat)
    requires a % DECIMALNUM < OCTALNUM && b % DECIMALNUM < OCTALNUM
    ensures Decode(a) == Decode(b) <==> a == b
    ensures Encode(Decode(a)) == a
  {
  }

  /** Every pin is the decoding of such a real pin. */
  lemma EncodeInverts(pin: nat)
    ensures Decode(Encode(pin)) == pin && Encode(pin) % DECIMALNUM < OCTALNUM
  {
  }

  /** The bound on the last digit is needed: the digits eight and nine run into the next group. */
  lemma DecodeCollides(group: nat, d: nat)
    requires d < 2
    ensures Decode(group * 10 + 8 + d) == Decode((group + 1) * 10 + d)
  {
  }

  // ---- The reflection map ----

  datatype PinConfig = PinConfig(gpio: nat, realPin: nat)

  /** The map after the configured pins have been entered into a zeroed table of `n` entries. */
  function Reflection(n: nat, cfg: seq<PinConfig>): (r: seq<nat>)
    requires forall c | c in cfg :: c.gpio < n
    ensures |r| == n
  {
    if cfg == [] then seq(n, _ => 0)
    else
      var last := cfg[|cfg| - 1];
      Reflection(n, cfg[..|cfg| - 1])[last.gpio := Decode(last.realPin)]
  }

  predicate Configured(cfg: seq<PinConfig>, g: nat) {
    exists i :: 0 <= i < |cfg| && cfg[i].gpio == g
  }

  /** Distinct gpio numbers, distinct real pins, every last digit below eight, everything in the table. */
  predicate WellFormed(n: nat, cfg: seq<PinConfig>) {
    && (forall c | c in cfg :: c.gpio < n && c.realPin % DECIMALNUM < OCTALNUM && Decode(c.realPin) < n)
    && (forall i, j | 0 <= i < j < |cfg| :: cfg[i].gpio != cfg[j].gpio && cfg[i].realPin != cfg[j].realPin)
  }

  /** The last entry for a gpio decides, whatever the configuration. */
  lemma {:induction false} ConfiguredEntries(n: nat, cfg: seq<PinConfig>, i: nat)
    requires (forall c | c in cfg :: c.gpio < n) && i < |cfg|
    requires forall j | i < j < |cfg| :: cfg[j].gpio != cfg[i].gpio
    ensures Reflection(n, cfg)[cfg[i].gpio] == Decode(cfg[i].realPin)
    decreases |cfg|
  {
    hide Decode;
    var m := |cfg| - 1;
    if i < m {
      assert cfg[..m][i] == cfg[i] && cfg[i].gpio != cfg[m].gpio;
      ConfiguredEntries(n, cfg[..m], i);
    }
  }

  lemma {:induction false} UnusedEntries(n: nat, cfg: seq<PinConfig>, g: nat)
    requires (forall c | c in cfg :: c.gpio < n) && g < n && !Configured(cfg, g)
    ensures Reflection(n, cfg)[g] == 0
    decreases |cfg|
  {
    hide Decode;
    if cfg != [] {
      var m := |cfg| - 1;
      assert cfg[m].gpio != g;
      assert !Configured(cfg[..m], g) by {
        assert forall k | 0 <= k < m :: cfg[..m][k] == cfg[k];
      }
      UnusedEntries(n, cfg[..m], g);
    }
  }

  lemma {:induction false} ReflectionHolds(n: nat, cfg: seq<PinConfig>)
    requires WellFormed(n, cfg)
    ensures forall i | 0 <= i < |cfg| :: Reflection(n, cfg)[cfg[i].gpio] == Decode(cfg[i].realPin)
    ensures forall g | 0 <= g < n && !Configured(cfg, g) :: Reflection(n, cfg)[g] == 0
  {
    hide Reflection;
    hide Decode;
    forall i | 0 <= i < |cfg| ensures Reflection(n, cfg)[cfg[i].gpio] == Decode(cfg[i].realPin) {
      ConfiguredEntries(n, cfg, i);
    }
    forall g | 0 <= g < n && !Configured(cfg, g) ensures Reflection(n, cfg)[g] == 0 {
      UnusedEntries(n, cfg, g);
    }
  }

  /** The gpio number an interrupt on `pin` is reported for. */
  function Dispatch(refl: seq<nat>, pin: nat): Option<nat> {
    if pin >= |refl| then None else FirstIndex(refl, pin, 0)
  }

  function FirstIndex(refl: seq<nat>, pin: nat, i: nat): (r: Option<nat>)
    requires i <= |refl|
    ensures r.Some? ==> i <= r.value < |refl| && refl[r.value] == pin
    ensures forall j | i <= j < (if r.Some? then r.value else |refl|) :: refl[j] != pin
    decreases |refl| - i
  {
    if i == |refl| then None else if refl[i] == pin then Some(i) else FirstIndex(refl, pin, i + 1)
  }

  /** The search reports the smallest gpio whose entry is the pin, if the pin is in the table. */
  lemma DispatchIff(refl: seq<nat>, pin: nat, g: nat)
    ensures Dispatch(refl, pin) == Some(g) <==>
      pin < |refl| && g < |refl| && refl[g] == pin && forall j | 0 <= j < g :: refl[j] != pin
  {
  }

  /** An interrupt on the pin of a configured gpio is reported for that gpio if and only if the pin is not
      pin 0 or all smaller gpio numbers are configured too: unused table entries read as pin 0. */
  lemma RoutesBackIff(n: nat, cfg: seq<PinConfig>, i: nat)
    requires WellFormed(n, cfg) && i < |cfg|
    ensures var g, pin := cfg[i].gpio, Decode(cfg[i].realPin);
      Dispatch(Reflection(n, cfg), pin) == Some(g) <==>
        pin != 0 || forall j | 0 <= j < g :: Configured(cfg, j)
  {
    var refl, g, pin := Reflection(n, cfg), cfg[i].gpio, Decode(cfg[i].realPin);
    ReflectionHolds(n, cfg);
    assert cfg[i] in cfg;
    forall j | 0 <= j < g && Configured(cfg, j) ensures refl[j] != pin {
      OwnPin(n, cfg, i, j);
    }
  }

  /** The configured gpio numbers are `0..m`. */
  ghost predicate Contiguous(cfg: seq<PinConfig>, m: nat) {
    forall g: nat :: Configured(cfg, g) <==> g < m
  }

  /** Contiguous gpio numbers make every configured gpio receive its own interrupts. */
  lemma ContiguousRoutesBack(n: nat, cfg: seq<PinConfig>, m: nat, i: nat)
    requires WellFormed(n, cfg) && Contiguous(cfg, m) && i < |cfg|
    ensures Dispatch(Reflection(n, cfg), Decode(cfg[i].realPin)) == Some(cfg[i].gpio)
  {
    RoutesBackIff(n, cfg, i);
    assert Configured(cfg, cfg[i].gpio);
  }

  // ---- Triggers ----

  datatype Kind = Edge | Level

  /** A zeroed entry of the trigger table, or the last trigger set. */
  datatype Trigger = Untouched | Trigger(kind: Kind, mode: nat)

  /** What the hardware has been told about a pin. */
  datatype HalPin = Unconfigured | Disarmed | Armed(trigger: Trigger)

  datatype Op = SetIrq(gpio: nat, mode: nat) | UnSetIrq(gpio: nat) | EnableIrq(gpio: nat) | DisableIrq(gpio: nat)

  predicate IsEdge(mode: nat) {
    mode == OSAL_IRQF_TRIGGER_RISING || mode == OSAL_IRQF_TRIGGER_FALLING
  }

  predicate IsLevel(mode: nat) {
    mode == OSAL_IRQF_TRIGGER_HIGH || mode == OSAL_IRQF_TRIGGER_LOW
  }

  datatype Tables = Tables(refl: seq<nat>, cfg: seq<Trigger>, hal: seq<HalPin>)

  predicate Sized(t: Tables) {
    |t.cfg| == |t.refl| == |t.hal|
  }

  function Do(t: Tables, op: Op): (r: Tables)
    requires Sized(t) && op.gpio < |t.refl|
    ensures Sized(r) && r.refl == t.refl
  {
    var pin := t.refl[op.gpio];
    if pin >= |t.refl| then t
    else
      match op
      case SetIrq(_, mode) =>
        if IsEdge(mode) then t.(cfg := t.cfg[pin := Trigger(Edge, mode)])
        else if IsLevel(mode) then t.(cfg := t.cfg[pin := Trigger(Level, mode)])
        else t
      case UnSetIrq(_) => t
      case EnableIrq(_) => t.(hal := t.hal[pin := Armed(t.cfg[pin])])
      case DisableIrq(_) => t.(hal := t.hal[pin := Disarmed])
  }

  function Result(t: Tables, op: Op): int
    requires op.gpio < |t.refl|
  {
    if t.refl[op.gpio] >= |t.refl| then HDF_ERR_NOT_SUPPORT
    else if op.SetIrq? && !IsEdge(op.mode) && !IsLevel(op.mode) then HDF_ERR_NOT_SUPPORT
    else HDF_SUCCESS
  }

  /** A call is accepted exactly if the pin is in the table and a trigger, if one is set, is a rising or falling
      edge or a high or low level; a refused call changes nothing. */
  lemma AcceptedIff(t: Tables, op: Op)
    requires Sized(t) && op.gpio < |t.refl|
    ensures Result(t, op) == HDF_SUCCESS || Result(t, op) == HDF_ERR_NOT_SUPPORT
    ensures Result(t, op) == HDF_SUCCESS <==> t.refl[op.gpio] < |t.refl| && (op.SetIrq? ==> op.mode in {1, 2, 4, 8})
    ensures Result(t, op) != HDF_SUCCESS ==> Do(t, op) == t
    ensures Result(t, op) == HDF_SUCCESS && op.SetIrq? ==>
      Do(t, op).cfg[t.refl[op.gpio]] == Trigger(if op.mode in {1, 2} then Edge else Level, op.mode)
  {
  }

  function Run(t: Tables, ops: seq<Op>): (r: Tables)
    requires Sized(t) && forall op | op in ops :: op.gpio < |t.refl|
    ensures Sized(r) && r.refl == t.refl
    decreases |ops|
  {
    if ops == [] then t else Do(Run(t, ops[..|ops| - 1]), ops[|ops| - 1])
  }

  function Fresh(refl: seq<nat>): Tables {
    Tables(refl, seq(|refl|, _ => Untouched), seq(|refl|, _ => Unconfigured))
  }

  // ---- What a history of calls amounts to ----

  /** The calls on some gpios, in order. */
  function Select(ops: seq<Op>, gpios: set<nat>): seq<Op> {
    if ops == [] then []
    else
      var op := ops[|ops| - 1];
      Select(ops[..|ops| - 1], gpios) + if op.gpio in gpios then [op] else []
  }

  function GpiosOn(refl: seq<nat>, pin: nat): set<nat> {
    set g | 0 <= g < |refl| && refl[g] == pin
  }

  predicate SetsTrigger(op: Op) {
    op.SetIrq? && (IsEdge(op.mode) || IsLevel(op.mode))
  }

  predicate SetsArming(op: Op) {
    op.EnableIrq? || op.DisableIrq?
  }

  function TriggerOf(op: Op): Trigger
    requires SetsTrigger(op)
  {
    Trigger(if IsEdge(op.mode) then Edge else Level, op.mode)
  }

  /** The trigger last set by calls that all concern one pin. */
  function LastTrigger(calls: seq<Op>): Trigger {
    if calls == [] then Untouched
    else if SetsTrigger(calls[|calls| - 1]) then TriggerOf(calls[|calls| - 1])
    else LastTrigger(calls[..|calls| - 1])
  }

  /** What the last of them that enables or disables leaves. */
  function LastArming(calls: seq<Op>): HalPin {
    if calls == [] then Unconfigured
    else
      var op, before := calls[|calls| - 1], calls[..|calls| - 1];
      if op.EnableIrq? then Armed(LastTrigger(before))
      else if op.DisableIrq? then Disarmed
      else LastArming(before)
  }

  /** Call `k` is the last in `calls` that satisfies `hit`. */
  ghost predicate IsLast(calls: seq<Op>, k: nat, hit: Op -> bool) {
    k < |calls| && hit(calls[k]) && forall j | k < j < |calls| :: !hit(calls[j])
  }

  /** A trigger is on record exactly if some call set it and no later call set another. */
  lemma {:induction false} OnRecordIff(calls: seq<Op>, t: Trigger)
    ensures LastTrigger(calls) == t && t != Untouched <==>
      exists k: nat :: IsLast(calls, k, SetsTrigger) && TriggerOf(calls[k]) == t
  {
    if calls != [] {
      var n := |calls| - 1;
      if SetsTrigger(calls[n]) {
        assert IsLast(calls, n, SetsTrigger);
      } else {
        OnRecordIff(calls[..n], t);
        forall k: nat | k < n ensures IsLast(calls, k, SetsTrigger) <==> IsLast(calls[..n], k, SetsTrigger) {
          assert calls[..n][k] == calls[k];
        }
      }
    }
  }

  /** Armed with a trigger means exactly: enabled, not disabled or enabled since, and the trigger is the
      one that was on record when it was enabled. */
  lemma {:induction false} ArmedIff(calls: seq<Op>, t: Trigger)
    ensures LastArming(calls) == Armed(t) <==>
      exists k: nat :: IsLast(calls, k, SetsArming) && calls[k].EnableIrq? && LastTrigger(calls[..k]) == t
  {
    hide LastTrigger;
    if calls != [] {
      var n := |calls| - 1;
      if SetsArming(calls[n]) {
        assert IsLast(calls, n, SetsArming);
      } else {
        ArmedIff(calls[..n], t);
        forall k: nat | k < n
          ensures IsLast(calls, k, SetsArming) <==> IsLast(calls[..n], k, SetsArming)
          ensures calls[..n][..k] == calls[..k]
        {
          assert calls[..n][k] == calls[k];
        }
      }
    }
  }

  lemma NextCall(calls: seq<Op>, op: Op)
    ensures LastTrigger(calls + [op]) == if SetsTrigger(op) then TriggerOf(op) else LastTrigger(calls)
    ensures LastArming(calls + [op]) ==
      if op.EnableIrq? then Armed(LastTrigger(calls)) else if op.DisableIrq? then Disarmed else LastArming(calls)
  {
    assert (calls + [op])[..|calls + [op]| - 1] == calls;
  }

  /** A call touches only the pin of its gpio. */
  lemma DoAtPin(t: Tables, op: Op, pin: nat)
    requires Sized(t) && op.gpio < |t.refl| && pin < |t.refl|
    ensures var own := t.refl[op.gpio] == pin;
      && Do(t, op).cfg[pin] == (if own && SetsTrigger(op) then TriggerOf(op) else t.cfg[pin])
      && Do(t, op).hal[pin] ==
         if own && op.EnableIrq? then Armed(t.cfg[pin]) else if own && op.DisableIrq? then Disarmed else t.hal[pin]
  {
  }

  /** After any calls, the trigger on record and the arming of a pin are those of the calls on its gpios:
      disabling and enabling keep the trigger, and a trigger set later waits for the next enable. */
  lemma {:induction false} ArmedAsLastSet(refl: seq<nat>, ops: seq<Op>, pin: nat)
    requires pin < |refl| && forall op | op in ops :: op.gpio < |refl|
    ensures Run(Fresh(refl), ops).cfg[pin] == LastTrigger(Select(ops, GpiosOn(refl, pin)))
    ensures Run(Fresh(refl), ops).hal[pin] == LastArming(Select(ops, GpiosOn(refl, pin)))
    decreases |ops|
  {
    if ops != [] {
      var op, before := ops[|ops| - 1], Select(ops[..|ops| - 1], GpiosOn(refl, pin));
      ArmedAsLastSet(refl, ops[..|ops| - 1], pin);
      DoAtPin(Run(Fresh(refl), ops[..|ops| - 1]), op, pin);
      NextCall(before, op);
      assert before + [] == before;
      hide Do;
      hide LastTrigger;
      hide LastArming;
      hide SetsTrigger;
    }
  }

  lemma {:induction false} SelectAgrees(ops: seq<Op>, a: set<nat>, b: set<nat>)
    requires forall op | op in ops :: op.gpio in a <==> op.gpio in b
    ensures Select(ops, a) == Select(ops, b)
  {
    if ops != [] {
      SelectAgrees(ops[..|ops| - 1], a, b);
      assert ops[|ops| - 1] in ops;
    }
  }

  /** From the calls on a configured gpio to its interrupt. After any calls on configured gpios, its pin is
      armed as the calls on that gpio alone say, whatever the calls on others are, and an interrupt on the
      pin is reported for that gpio unless the pin is 0 and some smaller gpio is not configured. */
  lemma EnabledInterruptArrives(n: nat, cfg: seq<PinConfig>, i: nat, ops: seq<Op>)
    requires WellFormed(n, cfg) && i < |cfg|
    requires forall op | op in ops :: Configured(cfg, op.gpio)
    ensures forall op | op in ops :: op.gpio < n
    ensures var t, pin := Run(Fresh(Reflection(n, cfg)), ops), Decode(cfg[i].realPin);
      var own := Select(ops, {cfg[i].gpio});
      && t.hal[pin] == LastArming(own) && t.cfg[pin] == LastTrigger(own)
      && (Dispatch(t.refl, pin) == Some(cfg[i].gpio) <==>
            pin != 0 || forall j | 0 <= j < cfg[i].gpio :: Configured(cfg, j))
  {
    hide Run;
    hide Dispatch;
    var refl, g, pin := Reflection(n, cfg), cfg[i].gpio, Decode(cfg[i].realPin);
    assert cfg[i] in cfg;
    forall op | op in ops ensures op.gpio < n && (op.gpio in GpiosOn(refl, pin) <==> op.gpio in {g}) {
      OwnPin(n, cfg, i, op.gpio);
    }
    SelectAgrees(ops, GpiosOn(refl, pin), {g});
    ArmedAsLastSet(refl, ops, pin);
    RoutesBackIff(n, cfg, i);
  }

  /** Configured gpios share no pin. */
  lemma OwnPin(n: nat, cfg: seq<PinConfig>, i: nat, g: nat)
    requires WellFormed(n, cfg) && i < |cfg| && Configured(cfg, g)
    ensures g < n && (Reflection(n, cfg)[g] == Decode(cfg[i].realPin) <==> g == cfg[i].gpio)
  {
    hide Decode;
    hide Reflection;
    ReflectionHolds(n, cfg);
    var k :| 0 <= k < |cfg| && cfg[k].gpio == g;
    assert cfg[k] in cfg && cfg[i] in cfg;
    DecodeIsBijective(cfg[k].realPin, cfg[i].realPin);
  }

  // ---- The driver ----

  class GpioBes {
    const pinLedNum: nat
    const reflection: array<nat>
    const irqCfg: array<Trigger>
    const hal: array<HalPin>

    ghost predicate Valid()
      reads this
    {
      && reflection.Length == irqCfg.Length == hal.Length == pinLedNum
    }

    constructor (n: nat)
      ensures Valid() && pinLedNum == n && fresh(reflection) && fresh(irqCfg) && fresh(hal)
      ensures View() == Fresh(Reflection(n, []))
    {
      pinLedNum := n;
      reflection := new nat[n](_ => 0);
      irqCfg := new Trigger[n](_ => Untouched);
      hal := new HalPin[n](_ => Unconfigured);
      new;
      assert reflection[..] == Reflection(n, []);
    }

    ghost function View(): Tables
      reads this, reflection, irqCfg, hal
    {
      Tables(reflection[..], irqCfg[..], hal[..])
    }

    /** The configuration loop. An index outside the table is outside what the loop may be given. */
    method GetGpioDeviceResource(cfg: seq<PinConfig>)
      requires Valid() && reflection[..] == Reflection(pinLedNum, []) && forall c | c in cfg :: c.gpio < pinLedNum
      modifies reflection
      ensures reflection[..] == Reflection(pinLedNum, cfg)
    {
      for i := 0 to |cfg|
        invariant reflection[..] == Reflection(pinLedNum, cfg[..i])
      {
        assert cfg[..i + 1][..i] == cfg[..i];
        var relPin := cfg[i].realPin / DECIMALNUM * OCTALNUM + cfg[i].realPin % DECIMALNUM;
        reflection[cfg[i].gpio] := relPin;
      }
      assert cfg[..|cfg|] == cfg;
    }

    method OemGpioIrqHdl(pin: nat) returns (gpio: Option<nat>)
      requires Valid()
      ensures gpio == Dispatch(reflection[..], pin)
    {
      if pin >= pinLedNum {
        return None;
      }
      for i := 0 to pinLedNum
        invariant FirstIndex(reflection[..], pin, 0) == FirstIndex(reflection[..], pin, i)
      {
        if pin == reflection[i] {
          return Some(i);
        }
      }
      return None;
    }

    method SetIrq(gpio: nat, mode: nat) returns (ret: int)
      requires Valid() && gpio < pinLedNum
      modifies irqCfg
      ensures View() == Do(old(View()), Op.SetIrq(gpio, mode)) && ret == Result(old(View()), Op.SetIrq(gpio, mode))
    {
      var pin := reflection[gpio];
      if pin >= pinLedNum {
        return HDF_ERR_NOT_SUPPORT;
      }
      if mode == OSAL_IRQF_TRIGGER_RISING || mode == OSAL_IRQF_TRIGGER_FALLING {
        irqCfg[pin] := Trigger(Edge, mode);
      } else if mode == OSAL_IRQF_TRIGGER_HIGH || mode == OSAL_IRQF_TRIGGER_LOW {
        irqCfg[pin] := Trigger(Level, mode);
      } else {
        return HDF_ERR_NOT_SUPPORT;
      }
      return HDF_SUCCESS;
    }

    method EnableIrq(gpio: nat) returns (ret: int)
      requires Valid() && gpio < pinLedNum
      modifies irqCfg, hal
      ensures View() == Do(old(View()), Op.EnableIrq(gpio)) && ret == Result(old(View()), Op.EnableIrq(gpio))
    {
      var halGpio := reflection[gpio];
      if halGpio >= pinLedNum {
        return HDF_ERR_NOT_SUPPORT;
      }
      var gpioCfg := irqCfg[halGpio];
      irqCfg[halGpio] := gpioCfg;
      hal[halGpio] := Armed(gpioCfg);
      assert irqCfg[..] == old(irqCfg[..]);
      return HDF_SUCCESS;
    }

    method DisableIrq(gpio: nat) returns (ret: int)
      requires Valid() && gpio < pinLedNum
      modifies hal
      ensures View() == Do(old(View()), Op.DisableIrq(gpio)) && ret == Result(old(View()), Op.DisableIrq(gpio))
    {
      var halGpio := reflection[gpio];
      if halGpio >= pinLedNum {
        return HDF_ERR_NOT_SUPPORT;
      }
      hal[halGpio] := Disarmed;
      return HDF_SUCCESS;
    }
  }
}
