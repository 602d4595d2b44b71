/** The command line of the driver host process: a strict decimal parser and a loop over option pairs. */
module HostArgs {
  import opened Hdf
  import opened Runs

  const INT_MIN: int := -0x8000_0000
  const INT_MAX: int := 0x7FFF_FFFF
  const LONG_MIN: int := -0x8000_0000_0000_0000
  const LONG_MAX: int := 0x7FFF_FFFF_FFFF_FFFF

  // ---- Integers ----

  /** White space of the C locale. */
  predicate IsSpace(c: char) {
    c == ' ' || '\t' <= c <= '\r'
  }

  predicate IsDigit(c: char) {
    '0' <= c <= '9'
  }

  predicate AllDigits(s: string) {
    forall k | 0 <= k < |s| :: IsDigit(s[k])
  }

  predicate AllSpaces(s: string) {
    forall k | 0 <= k < |s| :: IsSpace(s[k])
  }

  function DigitValue(c: char): nat
    requires IsDigit(c)
  {
    c as int - '0' as int
  }

  function DigitsValue(s: string): nat
    requires AllDigits(s)
  {
    if s == "" then 0 else 10 * DigitsValue(s[..|s| - 1]) + DigitValue(s[|s| - 1])
  }

  datatype Converted = Converted(value: int, end: nat, outOfRange: bool)

  /** `strtol` in base ten, as section 7.22.1.4 of ISO/IEC 9899:2011 defines it for a 64-bit `long`. */
  function Strtol(s: string): Converted {
    var i := RunEnd(IsSpace, s, 0);
    var signed := i < |s| && (s[i] == '+' || s[i] == '-');
    var j := if signed then i + 1 else i;
    var e := RunEnd(IsDigit, s, j);
    RunEndIsMaximal(IsDigit, s, j);
    if e == j then Converted(0, 0, false)
    else
      assert AllDigits(s[j..e]);
      var n: int := DigitsValue(s[j..e]);
      var v := if signed && s[i] == '-' then -n else n;
      if v > LONG_MAX then Converted(LONG_MAX, e, true)
      else if v < LONG_MIN then Converted(LONG_MIN, e, true)
      else Converted(v, e, false)
  }

  /** `None` if the string is rejected, in which case the caller's integer is not written. */
  function HdfStringToInt(s: string): Option<int> {
    var r := Strtol(s);
    if r.end == 0 || r.end != |s| || r.outOfRange || r.value > INT_MAX || r.value < INT_MIN then None
    else Some(r.value)
  }

  /** `s` is white space, an optional sign and at least one digit, with value `v`. */
  ghost predicate Denotes(s: string, ws: string, sign: string, ds: string, v: int) {
    && s == ws + sign + ds
    && AllSpaces(ws) && (sign == "" || sign == "+" || sign == "-") && AllDigits(ds) && ds != ""
    && var n: int := DigitsValue(ds); v == if sign == "-" then -n else n
  }

  lemma StrtolOfDenoting(s: string, ws: string, sign: string, ds: string, v: int)
    requires Denotes(s, ws, sign, ds, v)
    ensures Strtol(s).end == |s|
    ensures Strtol(s).outOfRange <==> !(LONG_MIN <= v <= LONG_MAX)
    ensures !Strtol(s).outOfRange ==> Strtol(s).value == v
  {
    hide DigitsValue;
    var i := |ws|;
    var j := i + |sign|;
    assert forall k | 0 <= k < i :: s[k] == ws[k];
    assert s[j..] == ds;
    assert forall k | j <= k < |s| :: s[k] == ds[k - j];
    assert sign != "" ==> s[i] == sign[0];
    RunEndIs(IsSpace, s, 0, i);
    RunEndIs(IsDigit, s, j, |s|);
    assert s[j..|s|] == ds;
  }

  /** Where the sign and the digits of a string that is all integer start. */
  lemma StrtolParts(s: string) returns (i: nat, j: nat)
    requires Strtol(s).end != 0 && Strtol(s).end == |s|
    ensures i <= j < |s| && AllSpaces(s[..i]) && AllDigits(s[j..])
    ensures s[i..j] == "" || s[i..j] == "+" || s[i..j] == "-"
  {
    hide DigitsValue;
    i := RunEnd(IsSpace, s, 0);
    j := if i < |s| && (s[i] == '+' || s[i] == '-') then i + 1 else i;
    RunEndIsMaximal(IsSpace, s, 0);
    RunEndIsMaximal(IsDigit, s, j);
    assert s[i..j] == if i < |s| && (s[i] == '+' || s[i] == '-') then [s[i]] else "";
  }

  lemma DenotedByStrtol(s: string) returns (ws: string, sign: string, ds: string, v: int)
    requires Strtol(s).end != 0 && Strtol(s).end == |s|
    ensures Denotes(s, ws, sign, ds, v)
  {
    hide Strtol;
    hide DigitsValue;
    var i, j := StrtolParts(s);
    ws, sign, ds := s[..i], s[i..j], s[j..];
    var n: int := DigitsValue(ds);
    v := if sign == "-" then -n else n;
    assert s == ws + sign + ds;
  }

  /** A string is accepted as `v` if and only if it denotes `v` and `v` is a 32-bit integer. */
  lemma AcceptsExactly(s: string, v: int)
    ensures HdfStringToInt(s) == Some(v) <==>
      INT_MIN <= v <= INT_MAX && exists ws, sign, ds :: Denotes(s, ws, sign, ds, v)
  {
    if ws, sign, ds :| Denotes(s, ws, sign, ds, v) {
      StrtolOfDenoting(s, ws, sign, ds, v);
    }
    if HdfStringToInt(s) == Some(v) {
      var ws, sign, ds, v' := DenotedByStrtol(s);
      StrtolOfDenoting(s, ws, sign, ds, v');
    }
  }

  function Digits(n: nat): (s: string)
    ensures AllDigits(s) && s != ""
  {
    (if n < 10 then "" else Digits(n / 10)) + [('0' as int + n % 10) as char]
  }

  function Decimal(n: int): string {
    if n < 0 then "-" + Digits(-n) else Digits(n)
  }

  lemma {:induction false} DigitsRoundTrip(n: nat)
    ensures DigitsValue(Digits(n)) == n
  {
    var d := [('0' as int + n % 10) as char];
    if n < 10 {
      assert Digits(n) == d;
    } else {
      DigitsRoundTrip(n / 10);
      assert Digits(n)[..|Digits(n)| - 1] == Digits(n / 10);
    }
  }

  lemma DecimalDenotes(n: int) returns (sign: string, ds: string)
    ensures Denotes(Decimal(n), "", sign, ds, n)
  {
    hide DigitsValue;
    hide Digits;
    if n < 0 {
      DigitsRoundTrip(-n);
      sign, ds := "-", Digits(-n);
    } else {
      DigitsRoundTrip(n);
      sign, ds := "", Digits(n);
    }
    assert "" + sign + ds == sign + ds == Decimal(n);
  }

  /** Parsing inverts decimal printing for every 32-bit integer. */
  lemma ParsesDecimal(n: int)
    requires INT_MIN <= n <= INT_MAX
    ensures HdfStringToInt(Decimal(n)) == Some(n)
  {
    hide HdfStringToInt;
    hide Denotes;
    hide Decimal;
    var sign, ds := DecimalDenotes(n);
    AcceptsExactly(Decimal(n), n);
  }

  // ---- Options ----

  /** The configuration, and the memory-allocator settings made while parsing. */
  datatype Config = Config(
    hostId: int, hostName: Option<string>, schedPriority: int, processPriority: int,
    malloptKey: int, malloptValue: int, mallopts: seq<(int, int)>)

  datatype Func = FuncI | FuncN | FuncP | FuncS | FuncM | FuncV | FuncNum

  datatype CommandToFunc = CommandToFunc(opt: string, func: Func)

  const COMMAND_FUNCS: seq<CommandToFunc> := [
    CommandToFunc("-i", FuncI), CommandToFunc("-n", FuncN), CommandToFunc("-p", FuncP),
    CommandToFunc("-s", FuncS), CommandToFunc("-m", FuncM), CommandToFunc("-v", FuncV),
    CommandToFunc("-1005", FuncNum), CommandToFunc("-1006", FuncNum), CommandToFunc("-1007", FuncNum),
    CommandToFunc("-1008", FuncNum), CommandToFunc("-1009", FuncNum), CommandToFunc("-1010", FuncNum),
    CommandToFunc("-1011", FuncNum), CommandToFunc("-1012", FuncNum), CommandToFunc("-1013", FuncNum),
    CommandToFunc("-1014", FuncNum)]

  function Or(v: Option<int>, old': int): int {
    if v.Some? then v.value else old'
  }

  datatype Step = Step(config: Config, ret: int)

  /** The effect of one command function. Only `-i` reports a bad integer in a way that stops parsing. */
  function Command(f: Func, key: string, value: string, c: Config): Step {
    var v := HdfStringToInt(value);
    match f
    case FuncI =>
      Step(c.(hostId := Or(v, c.hostId)), if v.None? then HDF_ERR_INVALID_PARAM else HDF_SUCCESS)
    case FuncN => Step(c.(hostName := Some(value)), HDF_SUCCESS)
    case FuncP => Step(c.(processPriority := Or(v, c.processPriority)), HDF_SUCCESS)
    case FuncS => Step(c.(schedPriority := Or(v, c.schedPriority)), HDF_SUCCESS)
    case FuncM => Step(c.(malloptKey := Or(v, c.malloptKey)), HDF_SUCCESS)
    case FuncV => Step(c.(malloptValue := Or(v, c.malloptValue)), HDF_SUCCESS)
    case FuncNum =>
      var k := HdfStringToInt(key);
      if v.None? || k.None? then Step(c, HDF_FAILURE)
      else Step(c.(mallopts := c.mallopts + [(k.value, v.value)]), HDF_SUCCESS)
  }

  /** The first table entry for an option. */
  function Lookup(table: seq<CommandToFunc>, opt: string): Option<Func> {
    if table == [] then None
    else if table[0].opt == opt then Some(table[0].func)
    else Lookup(table[1..], opt)
  }

  function Apply(opt: string, value: string, c: Config): Step {
    var f := Lookup(COMMAND_FUNCS, opt);
    if f.None? then Step(c, HDF_FAILURE) else Command(f.value, opt, value, c)
  }

  /** Arguments taken in pairs from the left, up to the first one that stops parsing. */
  function Fold(args: seq<Option<string>>, c: Config): Step {
    if |args| < 2 then Step(c, HDF_SUCCESS)
    else if args[0].None? || args[1].None? then Fold(args[2..], c)
    else
      var s := Apply(args[0].value, args[1].value, c);
      if s.ret == HDF_ERR_INVALID_PARAM then s else Fold(args[2..], s.config)
  }

  lemma {:induction false} LookupFirst(table: seq<CommandToFunc>, opt: string, k: nat)
    requires k <= |table| && forall j | 0 <= j < k :: table[j].opt != opt
    ensures Lookup(table, opt) == Lookup(table[k..], opt)
    decreases k
  {
    if k > 0 {
      LookupFirst(table[1..], opt, k - 1);
      assert table[1..][k - 1..] == table[k..];
    }
  }

  lemma LookupAt(table: seq<CommandToFunc>, opt: string, k: nat)
    requires k < |table| && table[k].opt == opt && forall j | 0 <= j < k :: table[j].opt != opt
    ensures Lookup(table, opt) == Some(table[k].func)
  {
    LookupFirst(table, opt, k);
  }

  /** One step of the fold. */
  lemma FoldPair(key: string, value: string, rest: seq<Option<string>>, c: Config)
    ensures var s := Apply(key, value, c);
      Fold([Some(key), Some(value)] + rest, c) ==
        if s.ret == HDF_ERR_INVALID_PARAM then s else Fold(rest, s.config)
  {
  }

  /** Parsing a line in two parts: a first part of whole pairs that is not stopped leaves its
      configuration to the second; one that is stopped decides the result. */
  lemma {:induction false} FoldConcat(a: seq<Option<string>>, b: seq<Option<string>>, c: Config)
    requires |a| % 2 == 0
    ensures Fold(a + b, c) ==
      if Fold(a, c).ret == HDF_SUCCESS then Fold(b, Fold(a, c).config) else Fold(a, c)
    decreases |a|
  {
    if a == [] {
      assert a + b == b;
    } else {
      assert (a + b)[2..] == a[2..] + b;
      if a[0].None? || a[1].None? {
        FoldConcat(a[2..], b, c);
      } else {
        FoldConcat(a[2..], b, Apply(a[0].value, a[1].value, c).config);
      }
    }
  }

  /** An argument left without a value is ignored. */
  lemma TrailingIgnored(a: seq<Option<string>>, x: Option<string>, c: Config)
    requires |a| % 2 == 0
    ensures Fold(a + [x], c) == Fold(a, c)
  {
    FoldConcat(a, [x], c);
    FoldReturns(a, c);
  }

  /** A process id that is not an integer. */
  predicate BadId(args: seq<Option<string>>, k: nat) {
    k + 1 < |args| && k % 2 == 0 && args[k] == Some("-i") && args[k + 1].Some?
    && HdfStringToInt(args[k + 1].value).None?
  }

  lemma {:induction false} LookupFinds(table: seq<CommandToFunc>, opt: string)
    ensures Lookup(table, opt).Some? ==>
      exists k :: 0 <= k < |table| && table[k] == CommandToFunc(opt, Lookup(table, opt).value)
    decreases |table|
  {
    if table != [] && table[0].opt != opt {
      LookupFinds(table[1..], opt);
      if Lookup(table[1..], opt).Some? {
        var k :| 0 <= k < |table[1..]| && table[1..][k] == CommandToFunc(opt, Lookup(table[1..], opt).value);
        assert table[k + 1] == table[1..][k];
      }
    }
  }

  lemma OnlyOneFuncI()
    ensures COMMAND_FUNCS[0] == CommandToFunc("-i", FuncI)
    ensures forall k | 1 <= k < |COMMAND_FUNCS| :: COMMAND_FUNCS[k].func != FuncI
  {
  }

  lemma LookupFuncI(opt: string)
    ensures Lookup(COMMAND_FUNCS, opt) == Some(FuncI) <==> opt == "-i"
  {
    OnlyOneFuncI();
    LookupFinds(COMMAND_FUNCS, opt);
  }

  lemma StopsOnlyOnBadId(opt: string, value: string, c: Config)
    ensures Apply(opt, value, c).ret == HDF_ERR_INVALID_PARAM <==> opt == "-i" && HdfStringToInt(value).None?
  {
    hide HdfStringToInt;
    hide Lookup;
    LookupFuncI(opt);
  }

  lemma {:induction false} FoldReturns(args: seq<Option<string>>, c: Config)
    ensures Fold(args, c).ret == HDF_SUCCESS || Fold(args, c).ret == HDF_ERR_INVALID_PARAM
    decreases |args|
  {
    if |args| >= 2 {
      if args[0].None? || args[1].None? {
        FoldReturns(args[2..], c);
      } else {
        FoldReturns(args[2..], Apply(args[0].value, args[1].value, c).config);
      }
    }
  }

  /** A value that is not an integer changes no field, except that `-n` takes any value; neither does an
      unknown option. */
  lemma BadIntegerChangesNothing(opt: string, value: string, c: Config)
    requires HdfStringToInt(value).None? && opt != "-n"
    ensures Apply(opt, value, c).config == c
  {
    hide HdfStringToInt;
    LookupFinds(COMMAND_FUNCS, opt);
    OnlyOneFuncN();
    hide Lookup;
  }

  lemma OnlyOneFuncN()
    ensures forall k | 0 <= k < |COMMAND_FUNCS| && COMMAND_FUNCS[k].func == FuncN :: COMMAND_FUNCS[k].opt == "-n"
  {
  }

  /** Parsing fails exactly when some pair is a process id that is not an integer; every other mistake
      is passed over. */
  lemma {:induction false} FailsIffBadId(args: seq<Option<string>>, c: Config)
    ensures Fold(args, c).ret == HDF_ERR_INVALID_PARAM <==> exists k :: BadId(args, k)
    decreases |args|
  {
    if |args| >= 2 {
      var stop := args[0].Some? && args[1].Some? && Apply(args[0].value, args[1].value, c).ret == HDF_ERR_INVALID_PARAM;
      if args[0].Some? && args[1].Some? {
        StopsOnlyOnBadId(args[0].value, args[1].value, c);
      }
      assert stop <==> BadId(args, 0);
      assert forall k: nat | k >= 2 :: BadId(args, k) <==> BadId(args[2..], k - 2);
      if !stop {
        var c' := if args[0].None? || args[1].None? then c else Apply(args[0].value, args[1].value, c).config;
        FailsIffBadId(args[2..], c');
        if k: nat :| BadId(args[2..], k) {
          assert BadId(args, k + 2);
        }
      }
    }
  }

  // ---- Printing a configuration ----

  datatype Opt = OptI | OptN | OptP | OptS | OptM | OptV

  function Flag(o: Opt): string {
    match o
    case OptI => "-i"
    case OptN => "-n"
    case OptP => "-p"
    case OptS => "-s"
    case OptM => "-m"
    case OptV => "-v"
  }

  function FuncOf(o: Opt): Func {
    match o
    case OptI => FuncI
    case OptN => FuncN
    case OptP => FuncP
    case OptS => FuncS
    case OptM => FuncM
    case OptV => FuncV
  }

  predicate IsInt(n: int) {
    INT_MIN <= n <= INT_MAX
  }

  /** A configuration as the running host can hold it. */
  predicate Printable(c: Config) {
    && c.hostName.Some? && IsInt(c.hostId) && IsInt(c.schedPriority) && IsInt(c.processPriority)
    && IsInt(c.malloptKey) && IsInt(c.malloptValue)
  }

  function TextOf(c: Config, o: Opt): string
    requires Printable(c)
  {
    match o
    case OptI => Decimal(c.hostId)
    case OptN => c.hostName.value
    case OptP => Decimal(c.processPriority)
    case OptS => Decimal(c.schedPriority)
    case OptM => Decimal(c.malloptKey)
    case OptV => Decimal(c.malloptValue)
  }

  /** What a printed line sets: a field of the configuration, or the allocator directly. */
  datatype Setting = Field(o: Opt) | Mallopt(key: int, value: int)

  predicate IsMalloptKey(key: int) {
    -1014 <= key <= -1005
  }

  predicate Settable(x: Setting) {
    x.Mallopt? ==> IsMalloptKey(x.key) && IsInt(x.value)
  }

  function KeyText(x: Setting): string {
    match x
    case Field(o) => Flag(o)
    case Mallopt(key, _) => Decimal(key)
  }

  function ValueText(c: Config, x: Setting): string
    requires Printable(c)
  {
    match x
    case Field(o) => TextOf(c, o)
    case Mallopt(_, value) => Decimal(value)
  }

  function Render(c: Config, line: seq<Setting>): seq<Option<string>>
    requires Printable(c)
  {
    if line == [] then []
    else [Some(KeyText(line[0])), Some(ValueText(c, line[0]))] + Render(c, line[1..])
  }

  /** The allocator settings of a line, in order. */
  function Mallopts(line: seq<Setting>): seq<(int, int)> {
    if line == [] then []
    else (if line[0].Mallopt? then [(line[0].key, line[0].value)] else []) + Mallopts(line[1..])
  }

  /** `base` with the fields named in `line` taken from `c`, and the allocator settings of `line` made. */
  function Merge(base: Config, c: Config, line: seq<Setting>): Config {
    Config(
      if Field(OptI) in line then c.hostId else base.hostId,
      if Field(OptN) in line then c.hostName else base.hostName,
      if Field(OptS) in line then c.schedPriority else base.schedPriority,
      if Field(OptP) in line then c.processPriority else base.processPriority,
      if Field(OptM) in line then c.malloptKey else base.malloptKey,
      if Field(OptV) in line then c.malloptValue else base.malloptValue,
      base.mallopts + Mallopts(line))
  }

  lemma LookupFlag(o: Opt)
    ensures Lookup(COMMAND_FUNCS, Flag(o)) == Some(FuncOf(o))
  {
    hide Lookup;
    var k := match o case OptI => 0 case OptN => 1 case OptP => 2 case OptS => 3 case OptM => 4 case OptV => 5;
    assert COMMAND_FUNCS[k] == CommandToFunc(Flag(o), FuncOf(o));
    LookupAt(COMMAND_FUNCS, Flag(o), k);
  }

  lemma KeyDigits(n: nat)
    requires 1005 <= n <= 1014
    ensures Digits(n) == ['1', '0', if n < 1010 then '0' else '1', ('0' as int + n % 10) as char]
  {
    assert Digits(n) == Digits(n / 10) + [('0' as int + n % 10) as char];
    assert Digits(100) == "100" && Digits(101) == "101";
    assert n / 10 == if n < 1010 then 100 else 101;
  }

  lemma TableKey(j: nat)
    requires 6 <= j < |COMMAND_FUNCS|
    ensures COMMAND_FUNCS[j].func == FuncNum
    ensures COMMAND_FUNCS[j].opt ==
      ['-', '1', '0', if j < 11 then '0' else '1', ('0' as int + (j + 999) % 10) as char]
  {
  }

  lemma KeyOption(key: int)
    requires IsMalloptKey(key)
    ensures 6 <= -999 - key < |COMMAND_FUNCS|
    ensures COMMAND_FUNCS[-999 - key] == CommandToFunc(Decimal(key), FuncNum) && |Decimal(key)| == 5
  {
    hide Digits;
    hide COMMAND_FUNCS;
    TableLength();
    KeyDigits(-key);
    TableKey(-999 - key);
  }

  lemma TableLength()
    ensures |COMMAND_FUNCS| == 16
  {
  }

  lemma LettersAreShort(j: nat)
    requires j < 6
    ensures |COMMAND_FUNCS[j].opt| == 2
  {
  }

  /** The table lists every allocator key under its decimal spelling, once. */
  lemma MalloptEntry(key: int)
    requires IsMalloptKey(key)
    ensures 0 <= -999 - key < |COMMAND_FUNCS|
    ensures COMMAND_FUNCS[-999 - key] == CommandToFunc(Decimal(key), FuncNum)
    ensures forall j | 0 <= j < -999 - key :: COMMAND_FUNCS[j].opt != Decimal(key)
  {
    hide Decimal;
    hide HdfStringToInt;
    KeyOption(key);
    forall j | 0 <= j < -999 - key ensures COMMAND_FUNCS[j].opt != Decimal(key) {
      if j < 6 {
        LettersAreShort(j);
      } else {
        KeyOption(-999 - j);
        ParsesDecimal(key);
        ParsesDecimal(-999 - j);
      }
    }
  }

  /** An allocator option appends its key and value to the settings made and changes nothing else. */
  lemma SetsMallopt(key: int, value: int, base: Config)
    requires IsMalloptKey(key) && IsInt(value)
    ensures Apply(Decimal(key), Decimal(value), base) ==
      Step(base.(mallopts := base.mallopts + [(key, value)]), HDF_SUCCESS)
  {
    hide HdfStringToInt;
    hide Decimal;
    hide Lookup;
    MalloptEntry(key);
    LookupAt(COMMAND_FUNCS, Decimal(key), -999 - key);
    ParsesDecimal(key);
    ParsesDecimal(value);
  }

  lemma SetsField(c: Config, base: Config, o: Opt)
    requires Printable(c)
    ensures Apply(Flag(o), TextOf(c, o), base) == Step(Merge(base, c, [Field(o)]), HDF_SUCCESS)
  {
    hide HdfStringToInt;
    hide Decimal;
    hide Lookup;
    LookupFlag(o);
    assert Mallopts([Field(o)]) == [];
    match o
    case OptI => ParsesDecimal(c.hostId);
    case OptN =>
    case OptP => ParsesDecimal(c.processPriority);
    case OptS => ParsesDecimal(c.schedPriority);
    case OptM => ParsesDecimal(c.malloptKey);
    case OptV => ParsesDecimal(c.malloptValue);
  }

  lemma ApplyRendered(c: Config, base: Config, x: Setting)
    requires Printable(c) && Settable(x)
    ensures Apply(KeyText(x), ValueText(c, x), base) == Step(Merge(base, c, [x]), HDF_SUCCESS)
  {
    hide Apply;
    match x
    case Field(o) => SetsField(c, base, o);
    case Mallopt(key, value) =>
      SetsMallopt(key, value, base);
      assert Mallopts([x]) == [(key, value)];
  }

  lemma MergeTwice(c: Config, base: Config, x: Setting, rest: seq<Setting>)
    ensures Merge(Merge(base, c, [x]), c, rest) == Merge(base, c, [x] + rest)
  {
    var line := [x] + rest;
    assert line[1..] == rest && [x][1..] == [];
    assert forall o: Opt :: Field(o) in line <==> Field(o) in [x] || Field(o) in rest;
    assert Mallopts(line) == Mallopts([x]) + Mallopts(rest);
  }

  /** Parsing a printed line sets exactly the fields it names, in whatever order and however often, and makes
      exactly its allocator settings, in order. */
  lemma {:induction false} ParsesRendered(c: Config, base: Config, line: seq<Setting>)
    requires Printable(c) && forall x | x in line :: Settable(x)
    ensures Fold(Render(c, line), base) == Step(Merge(base, c, line), HDF_SUCCESS)
    decreases |line|
  {
    if line != [] {
      var x, rest := line[0], line[1..];
      ApplyRendered(c, base, x);
      FoldPair(KeyText(x), ValueText(c, x), Render(c, rest), base);
      ParsesRendered(c, Merge(base, c, [x]), rest);
      MergeTwice(c, base, x, rest);
      assert [x] + rest == line;
    }
  }

  /** Any line that holds all six options gives the whole configuration back. */
  lemma ParsesWholeConfig(c: Config, base: Config, line: seq<Setting>)
    requires Printable(c) && forall x | x in line :: Settable(x)
    requires forall o: Opt :: Field(o) in line
    ensures Fold(Render(c, line), base) == Step(c.(mallopts := base.mallopts + Mallopts(line)), HDF_SUCCESS)
  {
    ParsesRendered(c, base, line);
  }

  lemma TableOption(k: nat)
    requires k < |COMMAND_FUNCS|
    ensures IsFlag(COMMAND_FUNCS[k].opt) || exists key :: IsMalloptKey(key) && COMMAND_FUNCS[k].opt == Decimal(key)
  {
    hide Decimal;
    if k < 6 {
      assert COMMAND_FUNCS[k].opt == Flag([OptI, OptN, OptP, OptS, OptM, OptV][k]);
    } else {
      TableLength();
      KeyOption(-999 - k);
      assert IsMalloptKey(-999 - k) && COMMAND_FUNCS[k].opt == Decimal(-999 - k);
    }
  }

  /** The options are the six letters and the allocator keys. */
  lemma OptionsAre(opt: string)
    ensures Lookup(COMMAND_FUNCS, opt).Some? <==>
      IsFlag(opt) || (exists key :: IsMalloptKey(key) && opt == Decimal(key))
  {
    hide Lookup;
    hide Decimal;
    hide COMMAND_FUNCS;
    if o :| opt == Flag(o) {
      LookupFlag(o);
    }
    if key :| IsMalloptKey(key) && opt == Decimal(key) {
      MalloptEntry(key);
      LookupAt(COMMAND_FUNCS, opt, -999 - key);
    }
    if Lookup(COMMAND_FUNCS, opt).Some? {
      LookupFinds(COMMAND_FUNCS, opt);
      var k :| 0 <= k < |COMMAND_FUNCS| && COMMAND_FUNCS[k] == CommandToFunc(opt, Lookup(COMMAND_FUNCS, opt).value);
      TableOption(k);
    }
  }

  /** Some option letter. */
  predicate IsFlag(opt: string) {
    exists o :: opt == Flag(o)
  }

  /** A command reports a failure exactly for an unknown option, and for an allocator key whose value is not
      an integer. */
  lemma FailureIff(opt: string, value: string, c: Config)
    ensures Apply(opt, value, c).ret == HDF_FAILURE <==>
      !IsFlag(opt) && ((exists key :: IsMalloptKey(key) && opt == Decimal(key)) ==> HdfStringToInt(value).None?)
  {
    OptionsAre(opt);
    hide HdfStringToInt;
    hide Decimal;
    hide Lookup;
    if o :| opt == Flag(o) {
      LookupFlag(o);
    } else if key :| IsMalloptKey(key) && opt == Decimal(key) {
      MalloptEntry(key);
      LookupAt(COMMAND_FUNCS, opt, -999 - key);
      ParsesDecimal(key);
    }
  }

  /** An option that is none of these is passed over with its value. */
  lemma UnknownIgnored(opt: string, value: string, rest: seq<Option<string>>, c: Config)
    requires !IsFlag(opt)
    requires forall key | IsMalloptKey(key) :: opt != Decimal(key)
    ensures Fold([Some(opt), Some(value)] + rest, c) == Fold(rest, c)
  {
    OptionsAre(opt);
    FoldPair(opt, value, rest, c);
  }

  // ---- The host process ----

  class HostConfig {
    var hostId: int
    var hostName: Option<string>
    var schedPriority: int
    var processPriority: int
    var malloptKey: int
    var malloptValue: int
    var mallopts: seq<(int, int)>

    constructor ()
      ensures View() == Config(0, None, 0, 0, 0, 0, [])
    {
      hostId, hostName, schedPriority, processPriority, malloptKey, malloptValue := 0, None, 0, 0, 0, 0;
      mallopts := [];
    }

    function View(): Config
      reads this
    {
      Config(hostId, hostName, schedPriority, processPriority, malloptKey, malloptValue, mallopts)
    }

    method Run(f: Func, key: string, value: string) returns (ret: int)
      modifies this
      ensures Step(View(), ret) == Command(f, key, value, old(View()))
    {
      var v := HdfStringToInt(value);
      ret := HDF_SUCCESS;
      match f {
        case FuncI =>
          if v.None? {
            return HDF_ERR_INVALID_PARAM;
          }
          hostId := v.value;
        case FuncN => hostName := Some(value);
        case FuncP => processPriority := Or(v, processPriority);
        case FuncS => schedPriority := Or(v, schedPriority);
        case FuncM => malloptKey := Or(v, malloptKey);
        case FuncV => malloptValue := Or(v, malloptValue);
        case FuncNum =>
          if v.None? {
            return HDF_FAILURE;
          }
          var k := HdfStringToInt(key);
          if k.None? {
            return HDF_FAILURE;
          }
          mallopts := mallopts + [(k.value, v.value)];
      }
    }

    method FindFunc(arg: string, value: string) returns (ret: int)
      modifies this
      ensures Step(View(), ret) == Apply(arg, value, old(View()))
    {
      for i := 0 to |COMMAND_FUNCS|
        invariant View() == old(View())
        invariant forall j | 0 <= j < i :: COMMAND_FUNCS[j].opt != arg
      {
        if COMMAND_FUNCS[i].opt == arg {
          LookupFirst(COMMAND_FUNCS, arg, i);
          ret := Run(COMMAND_FUNCS[i].func, arg, value);
          return;
        }
      }
      LookupFirst(COMMAND_FUNCS, arg, |COMMAND_FUNCS|);
      return HDF_FAILURE;
    }

    /** `argv[0]` is the program; the rest are option pairs. A null pointer is `None`. */
    method ParseCommandLineArgs(argv: seq<Option<string>>) returns (ret: int)
      requires argv != []
      modifies this
      ensures Step(View(), ret) == Fold(argv[1..], old(View()))
    {
      var i := 1;
      while i < |argv|
        invariant 1 <= i
        invariant Fold(argv[1..], old(View())) == Fold(if i <= |argv| then argv[i..] else [], View())
        decreases |argv| - i
      {
        var arg, valueIndex := argv[i], i + 1;
        assert valueIndex < |argv| ==> argv[i..][2..] == argv[i + 2..];
        i := i + 2;
        if arg.None? || valueIndex >= |argv| {
          continue;
        }
        var value := argv[valueIndex];
        if value.None? {
          continue;
        }
        ret := FindFunc(arg.value, value.value);
        if ret == HDF_ERR_INVALID_PARAM {
          return;
        }
      }
      return HDF_SUCCESS;
    }
  }
}
