/**
 * The payload layouts of the bus commands.
 *
 * Every long command carries eight data bytes and every short one a single byte. The layouts
 * number bits msb0 (bit 0 is the most significant bit of byte 0); `Bytes.BitAt` and
 * `Bytes.FieldBits` state that numbering independently of the shifts and masks used here.
 * A value wider than its field is truncated to the field's width when packed. Unpacking an
 * enumeration field whose bits hold no variant fails with `InvalidValue`, and a command's
 * `check` is a separate predicate that the callers assert.
 */
module Commands {
  import opened Bytes
  import opened Wrappers
  import opened IndoorUnit

  /** `packed_struct::PackingError`, as far as these layouts can raise it. */
  datatype PackingError = InvalidValue

  const COMMAND_A0: Byte := 0xa0
  const COMMAND_52: Byte := 0x52
  const COMMAND_53: Byte := 0x53
  const COMMAND_54: Byte := 0x54
  const COMMAND_55: Byte := 0x55
  const COMMAND_C4: Byte := 0xc4
  const COMMAND_C5: Byte := 0xc5
  const COMMAND_C6: Byte := 0xc6
  const COMMAND_D1: Byte := 0xd1
  const TRACKING_FA: Byte := 0xfa
  const TRACKING_FB: Byte := 0xfb
  const TRACKING_HELLO: Byte := 0xfc
  const TRACKING_ASSIGN_ADDRESS: Byte := 0xfd
  const TRACKING_ADDRESS_ASSIGNED: Byte := 0xfe

  // ---------------------------------------------------------------------------------------
  // Commands that always carry eight zero bytes (0x52, 0x53, 0x54 and 0x55 requests, the 0xc4
  // reply, 0xd1 and its response)

  /** `Default` of an empty long command. */
  function EmptyLongDefault(): (d: seq<Byte>)
    ensures |d| == 8 && AllZero(d)
  {
    Zeros(8)
  }

  /** `check` of an empty long command: every byte is zero. */
  predicate EmptyLongCheck(d: seq<Byte>) {
    AllZero(d)
  }

  /** The check accepts an eight-byte payload exactly when it is the default one. */
  lemma EmptyLongCheckIsDefault(d: seq<Byte>)
    requires |d| == 8
    ensures EmptyLongCheck(d) <==> d == EmptyLongDefault()
  {
    AllZeroIsZeros(d);
  }

  // ---------------------------------------------------------------------------------------
  // Command 0xa0: change indoor unit settings

  /** The mode encoding of command 0xa0. */
  datatype ModeA0 = A0Auto | A0Cool | A0Dry | A0Fan | A0Heat

  function ModeA0Code(m: ModeA0): Byte {
    match m
    case A0Auto => 0
    case A0Cool => 1
    case A0Dry => 2
    case A0Fan => 3
    case A0Heat => 4
  }

  /** The variant a three-bit mode field holds, if any. */
  function ModeA0FromCode(x: Byte): (r: Option<ModeA0>)
    ensures r.Some? <==> x <= 4
    ensures r.Some? ==> ModeA0Code(r.value) == x
  {
    if x == 0 then Some(A0Auto)
    else if x == 1 then Some(A0Cool)
    else if x == 2 then Some(A0Dry)
    else if x == 3 then Some(A0Fan)
    else if x == 4 then Some(A0Heat)
    else None
  }

  /** `From<IndoorUnitMode> for cmd_a0::Mode` */
  function ModeA0Of(m: IndoorUnitMode): ModeA0 {
    match m
    case Auto => A0Auto
    case Heat => A0Heat
    case Cool => A0Cool
    case Dry => A0Dry
    case Fan => A0Fan
  }

  /** `From<cmd_a0::Mode> for IndoorUnitMode` */
  function IndoorUnitModeOfA0(m: ModeA0): IndoorUnitMode {
    match m
    case A0Auto => Auto
    case A0Cool => Cool
    case A0Dry => Dry
    case A0Fan => Fan
    case A0Heat => Heat
  }

  /** The two conversions are mutually inverse. */
  lemma ModeA0ConversionsInverse(m: IndoorUnitMode, a: ModeA0)
    ensures IndoorUnitModeOfA0(ModeA0Of(m)) == m
    ensures ModeA0Of(IndoorUnitModeOfA0(a)) == a
  {
  }

  datatype CommandA0 = CommandA0(
    unknownByte0: Byte,
    unknownByte1: Byte,
    fanSpeed: Byte,
    setpointTemp: Byte,
    sPlasmaIon: bool,
    resetCleanFilter: bool,
    humidifier: bool,
    mode: ModeA0,
    unknownBit32: bool,
    unknownBit33: bool,
    power: bool,
    unknownBit35: bool,
    unknownByte5: Byte,
    unknownByte6: Byte,
    unknownByte7: Byte)

  /** `check`: bit 35 mirrors the power bit. */
  predicate CheckA0(c: CommandA0) {
    c.power == c.unknownBit35
  }

  /** Fan speed in bits 16..18 and setpoint in bits 19..23 share byte 2. */
  function A0Byte2(fanSpeed: Byte, setpoint: Byte): Byte {
    ((fanSpeed & 0x07) << 5) | (setpoint & 0x1f)
  }

  /** Bits 25, 26 and 27 and the mode in bits 29..31 share byte 3; bits 24 and 28 are not
      declared and pack as zero. */
  function A0Byte3(sPlasmaIon: bool, reset: bool, humidifier: bool, mode: ModeA0): Byte {
    Flag(sPlasmaIon, 0x40) | Flag(reset, 0x20) | Flag(humidifier, 0x10) | ModeA0Code(mode)
  }

  /** Bits 32..35 fill the top of byte 4; bits 36..39 are not declared. */
  function A0Byte4(b32: bool, b33: bool, power: bool, b35: bool): Byte {
    Flag(b32, 0x80) | Flag(b33, 0x40) | Flag(power, 0x20) | Flag(b35, 0x10)
  }

  function PackA0(c: CommandA0): (d: seq<Byte>)
    ensures |d| == 8
  {
    [c.unknownByte0, c.unknownByte1, A0Byte2(c.fanSpeed, c.setpointTemp),
     A0Byte3(c.sPlasmaIon, c.resetCleanFilter, c.humidifier, c.mode),
     A0Byte4(c.unknownBit32, c.unknownBit33, c.power, c.unknownBit35),
     c.unknownByte5, c.unknownByte6, c.unknownByte7]
  }

  /** Unpacking fails exactly when the three mode bits hold 5, 6 or 7. */
  function UnpackA0(d: seq<Byte>): (r: Result<CommandA0, PackingError>)
    requires |d| == 8
    ensures r.Err? <==> d[3] & 0x07 > 4
  {
    match ModeA0FromCode(d[3] & 0x07)
    case None => Err(InvalidValue)
    case Some(mode) =>
      Ok(CommandA0(d[0], d[1], d[2] >> 5, d[2] & 0x1f,
        HasFlag(d[3], 0x40), HasFlag(d[3], 0x20), HasFlag(d[3], 0x10), mode,
        HasFlag(d[4], 0x80), HasFlag(d[4], 0x40), HasFlag(d[4], 0x20), HasFlag(d[4], 0x10),
        d[5], d[6], d[7]))
  }

  /** The declared bits of an 0xa0 payload: bits 24, 28 and 36..39 cleared. */
  function A0DeclaredBits(d: seq<Byte>): (m: seq<Byte>)
    requires |d| == 8
    ensures |m| == 8
  {
    d[3 := d[3] & 0x77][4 := d[4] & 0xf0]
  }

  /** Packing after unpacking reproduces the payload except for its undeclared bits. */
  lemma A0Repack(d: seq<Byte>)
    requires |d| == 8 && UnpackA0(d).Ok?
    ensures PackA0(UnpackA0(d).value) == A0DeclaredBits(d)
  {
    var c := UnpackA0(d).value;
    A0Byte2Repack(d[2]);
    A0Byte3Repack(d[3], c.mode);
    A0Byte4Repack(d[4]);
  }

  lemma A0Byte2Repack(x: Byte)
    ensures A0Byte2(x >> 5, x & 0x1f) == x
  {
  }

  lemma A0Byte3Repack(x: Byte, mode: ModeA0)
    requires ModeA0Code(mode) == x & 0x07
    ensures A0Byte3(HasFlag(x, 0x40), HasFlag(x, 0x20), HasFlag(x, 0x10), mode) == x & 0x77
  {
  }

  lemma A0Byte4Repack(x: Byte)
    ensures A0Byte4(HasFlag(x, 0x80), HasFlag(x, 0x40), HasFlag(x, 0x20), HasFlag(x, 0x10)) == x & 0xf0
  {
  }

  /** Unpacking after packing gives the command back, when fan speed and setpoint fit their
      three and five bits. */
  lemma A0RoundTrip(c: CommandA0)
    requires c.fanSpeed < 8 && c.setpointTemp < 32
    ensures UnpackA0(PackA0(c)) == Ok(c)
  {
    A0PackedByte2(c);
    A0PackedByte3(c);
    A0PackedByte4(c);
  }

  lemma A0PackedByte2(c: CommandA0)
    requires c.fanSpeed < 8 && c.setpointTemp < 32
    ensures PackA0(c)[2] >> 5 == c.fanSpeed && PackA0(c)[2] & 0x1f == c.setpointTemp
  {
    A0Byte2Fields(c.fanSpeed, c.setpointTemp);
  }

  lemma A0PackedByte3(c: CommandA0)
    ensures var x := PackA0(c)[3];
      && HasFlag(x, 0x40) == c.sPlasmaIon && HasFlag(x, 0x20) == c.resetCleanFilter
      && HasFlag(x, 0x10) == c.humidifier && ModeA0FromCode(x & 0x07) == Some(c.mode)
  {
    A0Byte3Fields(c.sPlasmaIon, c.resetCleanFilter, c.humidifier, c.mode);
    ModeA0CodeRoundTrip(c.mode);
  }

  lemma A0PackedByte4(c: CommandA0)
    ensures var x := PackA0(c)[4];
      && HasFlag(x, 0x80) == c.unknownBit32 && HasFlag(x, 0x40) == c.unknownBit33
      && HasFlag(x, 0x20) == c.power && HasFlag(x, 0x10) == c.unknownBit35
  {
    A0Byte4Fields(c.unknownBit32, c.unknownBit33, c.power, c.unknownBit35);
  }

  lemma A0Byte2Fields(f: Byte, s: Byte)
    requires f < 8 && s < 32
    ensures A0Byte2(f, s) >> 5 == f && A0Byte2(f, s) & 0x1f == s
  {
  }

  lemma A0Byte3Fields(p: bool, r: bool, h: bool, mode: ModeA0)
    ensures var x := A0Byte3(p, r, h, mode);
      HasFlag(x, 0x40) == p && HasFlag(x, 0x20) == r && HasFlag(x, 0x10) == h
      && x & 0x07 == ModeA0Code(mode)
  {
  }

  lemma A0Byte4Fields(b32: bool, b33: bool, power: bool, b35: bool)
    ensures var x := A0Byte4(b32, b33, power, b35);
      HasFlag(x, 0x80) == b32 && HasFlag(x, 0x40) == b33 && HasFlag(x, 0x20) == power
      && HasFlag(x, 0x10) == b35
  {
  }

  lemma ModeA0CodeRoundTrip(m: ModeA0)
    ensures ModeA0FromCode(ModeA0Code(m)) == Some(m)
  {
  }

  /** The fields sit at the declared msb0 positions: fan speed bits 16..18, setpoint bits
      19..23, s-plasma ion 25, reset clean filter 26, humidifier 27, mode 29..31, the unknown
      bits 32 and 33, power 34 and its mirror 35. */
  lemma A0FieldPositions(d: seq<Byte>)
    requires |d| == 8 && UnpackA0(d).Ok?
    ensures var c := UnpackA0(d).value;
      && c.fanSpeed == FieldBits(d, 16, 3) && c.setpointTemp == FieldBits(d, 19, 5)
      && c.sPlasmaIon == BitAt(d, 25) && c.resetCleanFilter == BitAt(d, 26)
      && c.humidifier == BitAt(d, 27) && ModeA0Code(c.mode) == FieldBits(d, 29, 3)
      && c.unknownBit32 == BitAt(d, 32) && c.unknownBit33 == BitAt(d, 33)
      && c.power == BitAt(d, 34) && c.unknownBit35 == BitAt(d, 35)
  {
    FanAndSetpointFields(d);
    LowThreeBitsOfByte3(d);
    BitsOfByte3(d);
    BitsOfByte4(d);
  }

  lemma BitsOfByte3(d: seq<Byte>)
    requires |d| == 8
    ensures BitAt(d, 25) == HasFlag(d[3], 0x40) && BitAt(d, 26) == HasFlag(d[3], 0x20)
    ensures BitAt(d, 27) == HasFlag(d[3], 0x10)
  {
  }

  lemma BitsOfByte4(d: seq<Byte>)
    requires |d| == 8
    ensures BitAt(d, 32) == HasFlag(d[4], 0x80) && BitAt(d, 33) == HasFlag(d[4], 0x40)
    ensures BitAt(d, 34) == HasFlag(d[4], 0x20) && BitAt(d, 35) == HasFlag(d[4], 0x10)
  {
  }

  // ---------------------------------------------------------------------------------------
  // Temperatures

  datatype TemperatureUnit = Celsius | Fahrenheit

  /** A temperature byte: the unit in bit 0 and the raw value in bits 1..7. The record keeps
      the whole `u8` until it is packed. */
  datatype Temperature = Temperature(unit: TemperatureUnit, rawValue: Byte)

  /** `Temperature::new`: the value plus 55, with the unit as given (the offset is applied
      whatever the unit). */
  function NewTemperature(value: Byte, unit: TemperatureUnit): (t: Temperature)
    ensures t.unit == unit && t.rawValue - 55 == value
  {
    Temperature(unit, value + 55)
  }

  /** `Temperature::celsius`: the raw value less 55 for Celsius, the raw value unchanged for
      Fahrenheit. */
  function TemperatureCelsius(t: Temperature): Byte {
    match t.unit
    case Celsius => t.rawValue - 55
    case Fahrenheit => t.rawValue
  }

  /** Before packing, reading back a new Celsius temperature gives its value; a new Fahrenheit
      temperature reads back as its raw value, which still carries the offset of 55. */
  lemma CelsiusOfNewTemperature(v: Byte)
    ensures TemperatureCelsius(NewTemperature(v, Celsius)) == v
    ensures TemperatureCelsius(NewTemperature(v, Fahrenheit)) == NewTemperature(v, Fahrenheit).rawValue
    ensures TemperatureCelsius(NewTemperature(v, Fahrenheit)) == v + 55
  {
  }

  function PackTemperature(t: Temperature): Byte {
    Flag(t.unit == Fahrenheit, 0x80) | (t.rawValue & 0x7f)
  }

  function UnpackTemperature(x: Byte): (t: Temperature)
    ensures PackTemperature(t) == x
  {
    Temperature(if HasFlag(x, 0x80) then Fahrenheit else Celsius, x & 0x7f)
  }

  /** A Celsius value survives packing into its temperature byte exactly when the value plus
      55 still fits the seven-bit raw field, i.e. for 0..72 (and, with the wrap-around of the
      addition, for 201..255). */
  lemma TemperatureWireRoundTrip(v: Byte)
    ensures TemperatureCelsius(UnpackTemperature(PackTemperature(NewTemperature(v, Celsius)))) == v
        <==> v + 55 < 0x80
    ensures v + 55 < 0x80 <==> v <= 72 || v >= 201
  {
    SevenBitsOfCelsius(v);
  }

  lemma SevenBitsOfCelsius(v: Byte)
    ensures ((v + 55) & 0x7f) - 55 == v <==> v + 55 < 0x80
    ensures HasFlag(Flag(false, 0x80) | ((v + 55) & 0x7f), 0x80) == false
    ensures (Flag(false, 0x80) | ((v + 55) & 0x7f)) & 0x7f == (v + 55) & 0x7f
  {
  }

  /** The unit sits in msb0 bit 0 and the raw value in bits 1..7 of the temperature byte. */
  lemma TemperatureFieldPositions(x: Byte)
    ensures (UnpackTemperature(x).unit == Fahrenheit) == BitAt([x], 0)
    ensures UnpackTemperature(x).rawValue == FieldBits([x], 1, 7)
  {
    SevenLowBits([x]);
  }

  // ---------------------------------------------------------------------------------------
  // Command 0x52: read indoor unit state

  /** The mode encoding of command 0x52 (one bit per mode, none for auto). */
  datatype Mode52 = M52Auto | M52Heat | M52Cool | M52Dry | M52Fan

  function Mode52Code(m: Mode52): Byte {
    match m
    case M52Auto => 0x0
    case M52Heat => 0x1
    case M52Cool => 0x2
    case M52Dry => 0x4
    case M52Fan => 0x8
  }

  function Mode52FromCode(x: Byte): (r: Option<Mode52>)
    ensures r.Some? <==> x in {0x0, 0x1, 0x2, 0x4, 0x8}
    ensures r.Some? ==> Mode52Code(r.value) == x
  {
    if x == 0x0 then Some(M52Auto)
    else if x == 0x1 then Some(M52Heat)
    else if x == 0x2 then Some(M52Cool)
    else if x == 0x4 then Some(M52Dry)
    else if x == 0x8 then Some(M52Fan)
    else None
  }

  /** `From<IndoorUnitMode> for cmd_52::Mode` */
  function Mode52Of(m: IndoorUnitMode): Mode52 {
    match m
    case Auto => M52Auto
    case Heat => M52Heat
    case Cool => M52Cool
    case Dry => M52Dry
    case Fan => M52Fan
  }

  /** `From<cmd_52::Mode> for IndoorUnitMode` */
  function IndoorUnitModeOf52(m: Mode52): IndoorUnitMode {
    match m
    case M52Auto => Auto
    case M52Cool => Cool
    case M52Dry => Dry
    case M52Fan => Fan
    case M52Heat => Heat
  }

  lemma Mode52ConversionsInverse(m: IndoorUnitMode, a: Mode52)
    ensures IndoorUnitModeOf52(Mode52Of(m)) == m
    ensures Mode52Of(IndoorUnitModeOf52(a)) == a
  {
  }

  /** The two encodings differ: they give a mode the same code only for auto, and each is
      one-to-one. */
  lemma ModeEncodingsDiffer(m: IndoorUnitMode, n: IndoorUnitMode)
    ensures ModeA0Code(ModeA0Of(m)) == Mode52Code(Mode52Of(m)) <==> m == Auto
    ensures ModeA0Code(ModeA0Of(m)) == ModeA0Code(ModeA0Of(n)) <==> m == n
    ensures Mode52Code(Mode52Of(m)) == Mode52Code(Mode52Of(n)) <==> m == n
  {
  }

  /** `Command52IndoorUnitResponse` */
  datatype Command52Response = Command52Response(
    setpointTemp: Temperature,
    iuRoomTemp: Temperature,
    iuEvaInletTemp: Temperature,
    fanSpeed: Byte,
    power: bool,
    unknownBit33: bool,
    unknownBit34: bool,
    defrost: bool,
    mode: Mode52,
    cleanFilter: bool,
    iuEvaOutletTemp: Temperature)

  /** Temperatures in bytes 0, 1, 2 and 7; fan speed in bits 29..31; power, the unknown bits
      33 and 34 and defrost in bits 32..35 with the mode in bits 36..39; clean filter in bit
      43; byte 6 and the rest of bytes 3 and 5 are not declared. */
  function Pack52(r: Command52Response): (d: seq<Byte>)
    ensures |d| == 8
  {
    [PackTemperature(r.setpointTemp), PackTemperature(r.iuRoomTemp),
     PackTemperature(r.iuEvaInletTemp), r.fanSpeed & 0x07,
     Flag(r.power, 0x80) | Flag(r.unknownBit33, 0x40) | Flag(r.unknownBit34, 0x20)
       | Flag(r.defrost, 0x10) | Mode52Code(r.mode),
     Flag(r.cleanFilter, 0x10), 0, PackTemperature(r.iuEvaOutletTemp)]
  }

  function Unpack52(d: seq<Byte>): (r: Result<Command52Response, PackingError>)
    requires |d| == 8
    ensures r.Err? <==> Mode52FromCode(d[4] & 0x0f).None?
  {
    match Mode52FromCode(d[4] & 0x0f)
    case None => Err(InvalidValue)
    case Some(mode) =>
      Ok(Command52Response(UnpackTemperature(d[0]), UnpackTemperature(d[1]),
        UnpackTemperature(d[2]), d[3] & 0x07,
        HasFlag(d[4], 0x80), HasFlag(d[4], 0x40), HasFlag(d[4], 0x20), HasFlag(d[4], 0x10),
        mode, HasFlag(d[5], 0x10), UnpackTemperature(d[7])))
  }

  predicate FitsTemperatureByte(t: Temperature) {
    t.rawValue < 0x80
  }

  /** Unpacking a packed response gives it back, when every raw temperature fits seven bits
      and the fan speed three. */
  lemma Response52RoundTrip(r: Command52Response)
    requires FitsTemperatureByte(r.setpointTemp) && FitsTemperatureByte(r.iuRoomTemp)
    requires FitsTemperatureByte(r.iuEvaInletTemp) && FitsTemperatureByte(r.iuEvaOutletTemp)
    requires r.fanSpeed < 8
    ensures Unpack52(Pack52(r)) == Ok(r)
  {
    Response52PackedTemperatures(r);
    Response52PackedByte3(r);
    Response52PackedByte4(r);
    Response52PackedByte5(r);
  }

  lemma Response52PackedTemperatures(r: Command52Response)
    requires FitsTemperatureByte(r.setpointTemp) && FitsTemperatureByte(r.iuRoomTemp)
    requires FitsTemperatureByte(r.iuEvaInletTemp) && FitsTemperatureByte(r.iuEvaOutletTemp)
    ensures var d := Pack52(r);
      && UnpackTemperature(d[0]) == r.setpointTemp && UnpackTemperature(d[1]) == r.iuRoomTemp
      && UnpackTemperature(d[2]) == r.iuEvaInletTemp
      && UnpackTemperature(d[7]) == r.iuEvaOutletTemp
  {
    TemperatureByteRoundTrip(r.setpointTemp);
    TemperatureByteRoundTrip(r.iuRoomTemp);
    TemperatureByteRoundTrip(r.iuEvaInletTemp);
    TemperatureByteRoundTrip(r.iuEvaOutletTemp);
  }

  lemma Response52PackedByte3(r: Command52Response)
    requires r.fanSpeed < 8
    ensures Pack52(r)[3] & 0x07 == r.fanSpeed
  {
    LowBitsRoundTrip(r.fanSpeed);
  }

  lemma Response52PackedByte4(r: Command52Response)
    ensures var x := Pack52(r)[4];
      && HasFlag(x, 0x80) == r.power && HasFlag(x, 0x40) == r.unknownBit33
      && HasFlag(x, 0x20) == r.unknownBit34 && HasFlag(x, 0x10) == r.defrost
      && Mode52FromCode(x & 0x0f) == Some(r.mode)
  {
    Response52Byte4(r.power, r.unknownBit33, r.unknownBit34, r.defrost, r.mode);
    Mode52CodeRoundTrip(r.mode);
  }

  lemma Response52PackedByte5(r: Command52Response)
    ensures HasFlag(Pack52(r)[5], 0x10) == r.cleanFilter
  {
    FlagRoundTrip(r.cleanFilter, 0x10);
  }

  lemma Mode52CodeRoundTrip(m: Mode52)
    ensures Mode52FromCode(Mode52Code(m)) == Some(m)
  {
  }

  lemma TemperatureByteRoundTrip(t: Temperature)
    requires FitsTemperatureByte(t)
    ensures UnpackTemperature(PackTemperature(t)) == t
  {
  }

  lemma Response52Byte4(p: bool, b33: bool, b34: bool, defrost: bool, mode: Mode52)
    ensures var x := Flag(p, 0x80) | Flag(b33, 0x40) | Flag(b34, 0x20) | Flag(defrost, 0x10)
                     | Mode52Code(mode);
      HasFlag(x, 0x80) == p && HasFlag(x, 0x40) == b33 && HasFlag(x, 0x20) == b34
      && HasFlag(x, 0x10) == defrost && x & 0x0f == Mode52Code(mode)
  {
  }

  lemma FlagRoundTrip(b: bool, mask: Byte)
    requires mask != 0
    ensures HasFlag(Flag(b, mask), mask) == b
  {
  }

  lemma LowBitsRoundTrip(x: Byte)
    requires x < 8
    ensures (x & 0x07) & 0x07 == x
  {
  }

  /** The response's mode and clean-filter fields sit at msb0 bits 36..39 and 43. */
  lemma Response52FieldPositions(d: seq<Byte>)
    requires |d| == 8 && Unpack52(d).Ok?
    ensures var r := Unpack52(d).value;
      && Mode52Code(r.mode) == FieldBits(d, 36, 4) && r.fanSpeed == FieldBits(d, 29, 3)
      && r.power == BitAt(d, 32) && r.defrost == BitAt(d, 35) && r.cleanFilter == BitAt(d, 43)
  {
    ModeNibbleOfByte4(d);
    LowThreeBitsOfByte3(d);
    Bit43(d);
    BitsOfByte4(d);
  }

  lemma Bit43(d: seq<Byte>)
    requires |d| == 8
    ensures BitAt(d, 43) == HasFlag(d[5], 0x10)
  {
  }

  // ---------------------------------------------------------------------------------------
  // Commands 0x53, 0x54 and 0x55: further indoor unit state

  /** `Command53IndoorUnitResponse`: the humidifier in bit 59. */
  function Pack53(humidifier: bool): (d: seq<Byte>)
    ensures |d| == 8 && d[..7] == Zeros(7)
    ensures HasFlag(d[7], 0x10) == humidifier && BitAt(d, 59) == humidifier
    ensures forall k :: 0 <= k < 64 ==> BitAt(d, k) == (k == 59 && humidifier)
  {
    var d := [0, 0, 0, 0, 0, 0, 0, Flag(humidifier, 0x10)];
    OnlyBit59(d, humidifier);
    d
  }

  /** Seven zero bytes and then `0x10` or `0x00`: bit 59 is the only bit that can be set. */
  lemma OnlyBit59(d: seq<Byte>, humidifier: bool)
    requires |d| == 8 && d[..7] == Zeros(7) && d[7] == Flag(humidifier, 0x10)
    ensures forall k :: 0 <= k < 64 ==> BitAt(d, k) == (k == 59 && humidifier)
  {
    forall k | 0 <= k < 64
      ensures BitAt(d, k) == (k == 59 && humidifier)
    {
      if k < 56 {
        assert d[k / 8] == d[..7][k / 8] == 0;
        ZeroHasNoBits(7 - k % 8);
      } else {
        assert k / 8 == 7;
        FlagBits(humidifier, 7 - k % 8);
      }
    }
  }

  lemma ZeroHasNoBits(s: nat)
    requires s < 8
    ensures Shift(0, s) & 1 == 0
  {
  }

  lemma FlagBits(humidifier: bool, s: nat)
    requires s < 8
    ensures Shift(Flag(humidifier, 0x10), s) & 1 == (if s == 4 && humidifier then 1 else 0)
  {
  }

  /** `Command54IndoorUnitResponse`: seven flags in bits 56..62 of byte 7. */
  datatype Command54Response = Command54Response(
    oaIntake: bool,
    awayMds: bool,
    unknownBit58: bool,
    sPlasmaIon: bool,
    unknownBit60: bool,
    rangeHood: bool,
    dischargeTempControl: bool)

  function Response54Byte7(r: Command54Response): Byte {
    Flag(r.oaIntake, 0x80) | Flag(r.awayMds, 0x40) | Flag(r.unknownBit58, 0x20)
      | Flag(r.sPlasmaIon, 0x10) | Flag(r.unknownBit60, 0x08) | Flag(r.rangeHood, 0x04)
      | Flag(r.dischargeTempControl, 0x02)
  }

  function Pack54(r: Command54Response): (d: seq<Byte>)
    ensures |d| == 8 && d[..7] == Zeros(7)
  {
    Zeros(7) + [Response54Byte7(r)]
  }

  function Unpack54(d: seq<Byte>): (r: Command54Response)
    requires |d| == 8
  {
    var x := d[7];
    Command54Response(HasFlag(x, 0x80), HasFlag(x, 0x40), HasFlag(x, 0x20), HasFlag(x, 0x10),
      HasFlag(x, 0x08), HasFlag(x, 0x04), HasFlag(x, 0x02))
  }

  lemma Response54RoundTrip(r: Command54Response)
    ensures Unpack54(Pack54(r)) == r
  {
    Response54Byte7Fields(r);
  }

  lemma Response54Byte7Fields(r: Command54Response)
    ensures var x := Response54Byte7(r);
      && HasFlag(x, 0x80) == r.oaIntake && HasFlag(x, 0x40) == r.awayMds
      && HasFlag(x, 0x20) == r.unknownBit58 && HasFlag(x, 0x10) == r.sPlasmaIon
      && HasFlag(x, 0x08) == r.unknownBit60 && HasFlag(x, 0x04) == r.rangeHood
      && HasFlag(x, 0x02) == r.dischargeTempControl
  {
  }

  /** The s-plasma ion flag sits at msb0 bit 59 and outdoor air intake at bit 56. */
  lemma Response54FieldPositions(d: seq<Byte>)
    requires |d| == 8
    ensures Unpack54(d).sPlasmaIon == BitAt(d, 59) && Unpack54(d).oaIntake == BitAt(d, 56)
  {
  }

  /** `Command55IndoorUnitResponse`: humidity in bits 0..3, CO2 in bits 4..7, then seven
      undeclared bytes. */
  datatype Command55Response = Command55Response(humidity: Byte, co2: Byte, unknown: seq<Byte>)

  function Pack55(r: Command55Response): (d: seq<Byte>)
    requires |r.unknown| == 7
    ensures |d| == 8 && d[1..] == r.unknown
  {
    [((r.humidity & 0x0f) << 4) | (r.co2 & 0x0f)] + r.unknown
  }

  function Unpack55(d: seq<Byte>): (r: Command55Response)
    requires |d| == 8
    ensures |r.unknown| == 7 && Pack55(r) == d
  {
    NibblesRepack(d[0]);
    Command55Response(d[0] >> 4, d[0] & 0x0f, d[1..])
  }

  lemma NibblesRepack(x: Byte)
    ensures (((x >> 4) & 0x0f) << 4) | ((x & 0x0f) & 0x0f) == x
  {
  }

  lemma Response55RoundTrip(r: Command55Response)
    requires |r.unknown| == 7 && r.humidity < 16 && r.co2 < 16
    ensures Unpack55(Pack55(r)) == r
    ensures FieldBits(Pack55(r), 0, 4) == r.humidity && FieldBits(Pack55(r), 4, 4) == r.co2
  {
    var d := Pack55(r);
    Nibbles(r.humidity, r.co2);
    NibblesOfByte0(d);
  }

  lemma Nibbles(h: Byte, c: Byte)
    requires h < 16 && c < 16
    ensures var x := ((h & 0x0f) << 4) | (c & 0x0f); x >> 4 == h && x & 0x0f == c
  {
  }

  // ---------------------------------------------------------------------------------------
  // Commands 0xc4, 0xc5 and 0xc6: the main and sub controller handover, and bus status

  /** `CommandC4Request`: bytes 0, 1, 4 and 7 are declared; its `check` accepts anything. */
  datatype CommandC4Request = CommandC4Request(
    unknownByte0: Byte,
    numberOfIndoorUnits: Byte,
    unknownIuAddress: Byte,
    unknownByte7: Byte)

  function PackC4Request(c: CommandC4Request): (d: seq<Byte>)
    ensures |d| == 8 && d[2] == 0 && d[3] == 0 && d[5] == 0 && d[6] == 0
  {
    [c.unknownByte0, c.numberOfIndoorUnits, 0, 0, c.unknownIuAddress, 0, 0, c.unknownByte7]
  }

  function UnpackC4Request(d: seq<Byte>): (c: CommandC4Request)
    requires |d| == 8
    ensures PackC4Request(c) == d[2 := 0][3 := 0][5 := 0][6 := 0]
  {
    CommandC4Request(d[0], d[1], d[4], d[7])
  }

  /** `CommandC5Request`: bytes 0 and 1, then six undeclared bytes. */
  datatype CommandC5Request = CommandC5Request(unknownByte0: Byte, unknownByte1: Byte, unknown: seq<Byte>)

  /** `check`: byte 0 is 0x22. */
  predicate CheckC5Request(c: CommandC5Request) {
    c.unknownByte0 == 0x22
  }

  function PackC5Request(c: CommandC5Request): (d: seq<Byte>)
    requires |c.unknown| == 6
    ensures |d| == 8 && d[0] == c.unknownByte0 && d[1] == c.unknownByte1 && d[2..] == c.unknown
  {
    [c.unknownByte0, c.unknownByte1] + c.unknown
  }

  function UnpackC5Request(d: seq<Byte>): (c: CommandC5Request)
    requires |d| == 8
    ensures |c.unknown| == 6 && PackC5Request(c) == d
    ensures CheckC5Request(c) <==> d[0] == 0x22
  {
    CommandC5Request(d[0], d[1], d[2..])
  }

  /** `CommandC5Response`: byte 0 and seven undeclared bytes. */
  datatype CommandC5Response = CommandC5Response(unknownByte0: Byte, unknown: seq<Byte>)

  function PackC5Response(c: CommandC5Response): (d: seq<Byte>)
    requires |c.unknown| == 7
    ensures |d| == 8 && d[0] == c.unknownByte0 && d[1..] == c.unknown
  {
    [c.unknownByte0] + c.unknown
  }

  /** `Default`: 0x22 followed by seven zeros. */
  function DefaultC5Response(): (c: CommandC5Response)
    ensures |c.unknown| == 7
    ensures PackC5Response(c) == [0x22, 0, 0, 0, 0, 0, 0, 0]
  {
    CommandC5Response(0x22, Zeros(7))
  }

  /** `CommandC6`: byte 0, the number of indoor units, then six undeclared bytes. */
  datatype CommandC6 = CommandC6(unknownByte0: Byte, numberOfIndoorUnits: Byte, unknown: seq<Byte>)

  /** `check`: byte 0 is 0x22. */
  predicate CheckC6(c: CommandC6) {
    c.unknownByte0 == 0x22
  }

  function PackC6(c: CommandC6): (d: seq<Byte>)
    requires |c.unknown| == 6
    ensures |d| == 8 && d[0] == c.unknownByte0 && d[1] == c.numberOfIndoorUnits && d[2..] == c.unknown
  {
    [c.unknownByte0, c.numberOfIndoorUnits] + c.unknown
  }

  function UnpackC6(d: seq<Byte>): (c: CommandC6)
    requires |d| == 8
    ensures |c.unknown| == 6 && PackC6(c) == d
    ensures CheckC6(c) <==> d[0] == 0x22
  {
    CommandC6(d[0], d[1], d[2..])
  }

  // ---------------------------------------------------------------------------------------
  // Tracking commands

  /** `TrackingCommandFA`: byte 0 and seven undeclared bytes. */
  datatype TrackingCommandFA = TrackingCommandFA(unknownB0: Byte, unknown: seq<Byte>)

  function PackFA(c: TrackingCommandFA): (d: seq<Byte>)
    requires |c.unknown| == 7
    ensures |d| == 8 && d[0] == c.unknownB0 && d[1..] == c.unknown
  {
    [c.unknownB0] + c.unknown
  }

  /** `Default`: 0xaa followed by seven zeros. */
  function DefaultFA(): (c: TrackingCommandFA)
    ensures |c.unknown| == 7 && PackFA(c) == [0xaa, 0, 0, 0, 0, 0, 0, 0]
  {
    TrackingCommandFA(0xaa, Zeros(7))
  }

  /** `check`: byte 0 is 0xaa and the rest are zero. */
  predicate CheckFA(c: TrackingCommandFA) {
    c.unknownB0 == 0xaa && c.unknown == Zeros(7)
  }

  /** The check accepts exactly the default payload. */
  lemma CheckFAIsDefault(c: TrackingCommandFA)
    requires |c.unknown| == 7
    ensures CheckFA(c) <==> PackFA(c) == PackFA(DefaultFA())
  {
    if PackFA(c) == PackFA(DefaultFA()) {
      assert c.unknown == PackFA(c)[1..];
    }
  }

  /** `TrackingDiscoverState`, carried in bits 6..7 of byte 0 of command 0xfb. */
  datatype TrackingDiscoverState = DiscoverAssigned | DiscoverUnassigned | TrackingStart

  function DiscoverStateCode(s: TrackingDiscoverState): Byte {
    match s
    case DiscoverAssigned => 0
    case DiscoverUnassigned => 1
    case TrackingStart => 2
  }

  /** `TrackingCommandFB`: the state, then seven undeclared bytes; bits 0..5 are not declared. */
  datatype TrackingCommandFB = TrackingCommandFB(state: TrackingDiscoverState, unknown: seq<Byte>)

  function PackFB(c: TrackingCommandFB): (d: seq<Byte>)
    requires |c.unknown| == 7
    ensures |d| == 8 && d[1..] == c.unknown
  {
    [DiscoverStateCode(c.state)] + c.unknown
  }

  /** Unpacking fails exactly when bits 6..7 hold 3. */
  function UnpackFB(d: seq<Byte>): (r: Result<TrackingCommandFB, PackingError>)
    requires |d| == 8
    ensures r.Err? <==> d[0] & 0x03 == 3
    ensures r.Ok? ==> |r.value.unknown| == 7 && PackFB(r.value) == d[0 := d[0] & 0x03]
    ensures r.Ok? ==> DiscoverStateCode(r.value.state) == FieldBits(d, 6, 2)
  {
    LowTwoBitsOfByte0(d);
    var x := d[0] & 0x03;
    if x == 0 then Ok(TrackingCommandFB(DiscoverAssigned, d[1..]))
    else if x == 1 then Ok(TrackingCommandFB(DiscoverUnassigned, d[1..]))
    else if x == 2 then Ok(TrackingCommandFB(TrackingStart, d[1..]))
    else Err(InvalidValue)
  }

  /** The three short tracking commands carry one byte: 0xfc an unknown byte (sent as 0x00),
      0xfd and 0xfe an address. Packing and unpacking them is the identity on that byte. */
  function PackShort(b: Byte): (d: seq<Byte>)
    ensures |d| == 1 && d[0] == b
  {
    [b]
  }

  function UnpackShort(d: seq<Byte>): (b: Byte)
    requires |d| == 1
    ensures PackShort(b) == d
  {
    d[0]
  }

  // ---------------------------------------------------------------------------------------
  // The msb0 reference applied to one byte

  /** The field lemmas below unfold the msb0 reference one bit at a time. */

  lemma FanAndSetpointFields(d: seq<Byte>)
    requires |d| == 8
    ensures FieldBits(d, 16, 3) == d[2] >> 5
    ensures FieldBits(d, 19, 5) == d[2] & 0x1f
  {
    assert FieldBits(d, 16, 1) == (d[2] >> 7) & 1;
    assert FieldBits(d, 16, 2) == (FieldBits(d, 16, 1) << 1) | ((d[2] >> 6) & 1);
    assert FieldBits(d, 16, 3) == (FieldBits(d, 16, 2) << 1) | ((d[2] >> 5) & 1);
    assert FieldBits(d, 19, 1) == (d[2] >> 4) & 1;
    assert FieldBits(d, 19, 2) == (FieldBits(d, 19, 1) << 1) | ((d[2] >> 3) & 1);
    assert FieldBits(d, 19, 3) == (FieldBits(d, 19, 2) << 1) | ((d[2] >> 2) & 1);
    assert FieldBits(d, 19, 4) == (FieldBits(d, 19, 3) << 1) | ((d[2] >> 1) & 1);
    assert FieldBits(d, 19, 5) == (FieldBits(d, 19, 4) << 1) | (d[2] & 1);
  }

  lemma LowThreeBitsOfByte3(d: seq<Byte>)
    requires |d| == 8
    ensures FieldBits(d, 29, 3) == d[3] & 0x07
  {
    assert FieldBits(d, 29, 1) == (d[3] >> 2) & 1;
    assert FieldBits(d, 29, 2) == (FieldBits(d, 29, 1) << 1) | ((d[3] >> 1) & 1);
    assert FieldBits(d, 29, 3) == (FieldBits(d, 29, 2) << 1) | (d[3] & 1);
  }

  lemma ModeNibbleOfByte4(d: seq<Byte>)
    requires |d| == 8
    ensures FieldBits(d, 36, 4) == d[4] & 0x0f
  {
    assert FieldBits(d, 36, 1) == (d[4] >> 3) & 1;
    assert FieldBits(d, 36, 2) == (FieldBits(d, 36, 1) << 1) | ((d[4] >> 2) & 1);
    assert FieldBits(d, 36, 3) == (FieldBits(d, 36, 2) << 1) | ((d[4] >> 1) & 1);
    assert FieldBits(d, 36, 4) == (FieldBits(d, 36, 3) << 1) | (d[4] & 1);
  }

  lemma NibblesOfByte0(d: seq<Byte>)
    requires |d| == 8
    ensures FieldBits(d, 0, 4) == d[0] >> 4
    ensures FieldBits(d, 4, 4) == d[0] & 0x0f
  {
    assert FieldBits(d, 0, 1) == (d[0] >> 7) & 1;
    assert FieldBits(d, 0, 2) == (FieldBits(d, 0, 1) << 1) | ((d[0] >> 6) & 1);
    assert FieldBits(d, 0, 3) == (FieldBits(d, 0, 2) << 1) | ((d[0] >> 5) & 1);
    assert FieldBits(d, 0, 4) == (FieldBits(d, 0, 3) << 1) | ((d[0] >> 4) & 1);
    assert FieldBits(d, 4, 1) == (d[0] >> 3) & 1;
    assert FieldBits(d, 4, 2) == (FieldBits(d, 4, 1) << 1) | ((d[0] >> 2) & 1);
    assert FieldBits(d, 4, 3) == (FieldBits(d, 4, 2) << 1) | ((d[0] >> 1) & 1);
    assert FieldBits(d, 4, 4) == (FieldBits(d, 4, 3) << 1) | (d[0] & 1);
  }

  lemma LowTwoBitsOfByte0(d: seq<Byte>)
    requires |d| == 8
    ensures FieldBits(d, 6, 2) == d[0] & 0x03
  {
    assert FieldBits(d, 6, 1) == (d[0] >> 1) & 1;
    assert FieldBits(d, 6, 2) == (FieldBits(d, 6, 1) << 1) | (d[0] & 1);
  }

  lemma SevenLowBits(d: seq<Byte>)
    requires |d| == 1
    ensures FieldBits(d, 1, 7) == d[0] & 0x7f
  {
    assert FieldBits(d, 1, 1) == (d[0] >> 6) & 1;
    assert FieldBits(d, 1, 2) == (FieldBits(d, 1, 1) << 1) | ((d[0] >> 5) & 1);
    assert FieldBits(d, 1, 3) == (FieldBits(d, 1, 2) << 1) | ((d[0] >> 4) & 1);
    assert FieldBits(d, 1, 4) == (FieldBits(d, 1, 3) << 1) | ((d[0] >> 3) & 1);
    assert FieldBits(d, 1, 5) == (FieldBits(d, 1, 4) << 1) | ((d[0] >> 2) & 1);
    assert FieldBits(d, 1, 6) == (FieldBits(d, 1, 5) << 1) | ((d[0] >> 1) & 1);
    assert FieldBits(d, 1, 7) == (FieldBits(d, 1, 6) << 1) | (d[0] & 1);
  }
}
