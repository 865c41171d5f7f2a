/**
  Interpretation of the radar's responses (MR24HPC1 and MR60BHA1 modules).

  `FormatData` picks a handler by control word; each handler picks a reading by command and
  returns a one-entry record. An unknown control word or command gives an "error" entry; a label
  index beyond its table raises `IndexError`, modelled as a `Failure`.
*/
module RadarResponse {
  import opened Wrappers
  import opened Bytes

  // Payload sentinels
  const NO_DATA: seq<byte> := [0x0F]
  const TURN_ON: seq<byte> := [0x01]
  const TURN_OFF: seq<byte> := [0x00]

  // Control words
  const SYSTEM_FUNCTIONS: byte := 0x01
  const PRODUCT_INFO: byte := 0x02
  const OPERATION_STATUS: byte := 0x05
  const DETECTION_RANGE: byte := 0x07
  const UNDERLYING_OPEN_FUNCTION: byte := 0x08
  const PRESENCE: byte := 0x80
  const RESPIRATORY: byte := 0x81
  const SLEEP: byte := 0x84
  const HEART: byte := 0x85

  // System functions
  const SYSTEM_HEARTBEAT: byte := 0x80
  const SYSTEM_RESET: byte := 0x02

  // Product info
  const PRODUCT_MODEL: byte := 0xA1
  const PRODUCT_ID: byte := 0xA2
  const HARDWARE_MODEL: byte := 0xA3
  const FIRMWARE_VERSION: byte := 0xA4

  // Operation status
  const INITIALIZATION: byte := 0x81

  // Detection range
  const OUT_OF_BOUNDS: byte := 0x87

  // Underlying open function
  const TOGGLE_UNDERLYING_OPEN_FUNCTION: byte := 0x00

  // Presence
  const TOGGLE_PRESENCE_MONITORING: byte := 0x00
  const SET_EXISTENCE_TIME: byte := 0x0A
  const PRESENCE_STATUS: byte := 0x80
  const EXISTENCE_STATUS: byte := 0x81
  const MOVEMENT_STATUS: byte := 0x82
  const MOVEMENT_ENERGY: byte := 0x83
  const EXISTENCE_DISTANCE: byte := 0x84

  // Heart
  const TOGGLE_HEART_MONITORING: byte := 0x00
  const HEART_MONITORING_STATUS: byte := 0x80
  const HEART_RATE: byte := 0x82
  const HEART_WAVEFORM: byte := 0x85

  // Respiratory
  const TOGGLE_RESPIRATORY_MONITORING: byte := 0x00
  const RESPIRATORY_MONITORING_STATUS: byte := 0x80
  const RESPIRATORY_SPEED: byte := 0x81
  const RESPIRATORY_RATE: byte := 0x82
  const RESPIRATORY_WAVEFORM: byte := 0x85

  // Sleep
  const TOGGLE_SLEEP_MONITORING: byte := 0x00

  // Label tables
  const BED_STATUS: seq<string> := ["Out Bed", "In Bed", "None"]
  const SLEEP_STATUS: seq<string> := ["Deep Sleep", "Light Sleep", "Awake", "None"]
  const MOVEMENT_STATUS_LABELS: seq<string> := ["None", "Stationary", "Active"]
  const PRESENCE_TIMES: seq<string> := ["None", "10s", "30s", "1m", "2m", "5m", "10m", "30m", "60m"]
  const SCENE_SETTINGS: seq<string> := ["Not set", "Living Room", "Bedroom", "Bathroom", "Area Detection"]
  const SENSITIVITY_SETTINGS: seq<string> := ["Not set", "2 meter", "3 meter", "4 meter"]

  /** The subsystem a control word selects; it names the "Invalid ... Command" messages. */
  datatype Subsystem =
    | SystemFunction | ProductInfo | OperationStatus | DetectionRange | UnderlyingOpenFunction
    | PresenceMonitoring | RespiratoryMonitoring | SleepMonitoring | HeartRateMonitoring

  datatype InvalidReason =
    | InvalidControlWord
    | InvalidCommand(subsystem: Subsystem, command: byte, data: seq<byte>)

  /** A reading's value: flag, big-endian integer, raw bytes, byte values, label or error. */
  datatype Value =
    | Flag(on: bool)
    | Number(n: nat)
    | Raw(bytes: seq<byte>)
    | Samples(values: seq<nat>)
    | Label(name: string)
    | Invalid(reason: InvalidReason)

  /** The single key/value pair of the dictionary a handler returns. */
  datatype Entry = Entry(key: string, value: Value)

  /** The `IndexError` of a label lookup past the end of its table. */
  datatype LabelIndexError = IndexOutOfRange(key: string, index: nat, size: nat)

  type Interpretation = Result<Entry, LabelIndexError>

  function FlagEntry(key: string, data: seq<byte>, on: byte): Interpretation
  {
    Success(Entry(key, Flag(data == [on])))
  }

  function NumberEntry(key: string, data: seq<byte>): Interpretation
  {
    Success(Entry(key, Number(FromBytesBig(data))))
  }

  function RawEntry(key: string, data: seq<byte>): Interpretation
  {
    Success(Entry(key, Raw(data)))
  }

  /** `[b for b in data]`: the payload as a list of integers. */
  function ByteValues(data: seq<byte>): (r: seq<nat>)
    ensures |r| == |data| && forall i | 0 <= i < |r| :: r[i] == data[i] as nat
  {
    seq(|data|, i requires 0 <= i < |data| => data[i] as nat)
  }

  function SamplesEntry(key: string, data: seq<byte>): Interpretation
  {
    Success(Entry(key, Samples(ByteValues(data))))
  }

  function LabelEntry(key: string, labels: seq<string>, data: seq<byte>): Interpretation
  {
    var i := FromBytesBig(data);
    if i < |labels| then Success(Entry(key, Label(labels[i])))
    else Failure(IndexOutOfRange(key, i, |labels|))
  }

  function InvalidEntry(subsystem: Subsystem, command: byte, data: seq<byte>): Interpretation
  {
    Success(Entry("error", Invalid(InvalidCommand(subsystem, command, data))))
  }

  function HandleHeartRateMonitor(command: byte, data: seq<byte>): Interpretation
  {
    match command
    case 0x00 => FlagEntry("heart_monitoring", data, 0x01)
    case 0x02 => NumberEntry("heart_rate", data)
    case 0x05 => SamplesEntry("heart_waveform", data)
    case 0x82 => NumberEntry("heart_rate", data)
    case _ => InvalidEntry(HeartRateMonitoring, command, data)
  }

  /** Command 0x01 appears twice in the source's dictionary; the later entry, the rate, wins. */
  function HandleRespiratoryMonitor(command: byte, data: seq<byte>): Interpretation
  {
    match command
    case 0x00 => FlagEntry("respiratory_monitoring", data, 0x01)
    case 0x01 => NumberEntry("respiratory_rate", data)
    case 0x02 => SamplesEntry("respiratory_waveform", data)
    case 0x82 => NumberEntry("respiratory_rate", data)
    case _ => InvalidEntry(RespiratoryMonitoring, command, data)
  }

  function HandleSleepMonitor(command: byte, data: seq<byte>): Interpretation
  {
    match command
    case 0x00 => FlagEntry("sleep_monitoring", data, 0x01)
    case 0x01 => LabelEntry("bed_status", BED_STATUS, data)
    case 0x02 => LabelEntry("sleep_status", SLEEP_STATUS, data)
    case 0x03 => NumberEntry("awake_duration", data)
    case 0x04 => NumberEntry("light_sleep_duration", data)
    case 0x05 => NumberEntry("deep_sleep_duration", data)
    case _ => InvalidEntry(SleepMonitoring, command, data)
  }

  function HandleHumanPresence(command: byte, data: seq<byte>): Interpretation
  {
    match command
    case 0x00 => FlagEntry("presence_monitoring", data, 0x01)
    case 0x01 => FlagEntry("existence_status", data, 0x01)
    case 0x02 => LabelEntry("movement_status", MOVEMENT_STATUS_LABELS, data)
    case 0x03 => NumberEntry("movement_energy", data)
    case 0x04 => NumberEntry("presence_distance", data)
    case 0x05 => NumberEntry("presence_orientation", data)
    case 0x0A => LabelEntry("set_presence_time", PRESENCE_TIMES, data)
    case 0x81 => FlagEntry("existence_status", data, 0x01)
    case _ => InvalidEntry(PresenceMonitoring, command, data)
  }

  function HandleRadarDetectionRange(command: byte, data: seq<byte>): Interpretation
  {
    match command
    case 0x07 => FlagEntry("in_range", data, 0x01)
    case 0x87 => FlagEntry("in_range", data, 0x01)
    case _ => InvalidEntry(DetectionRange, command, data)
  }

  function HandleProductInfo(command: byte, data: seq<byte>): Interpretation
  {
    match command
    case 0xA1 => RawEntry("model", data)
    case 0xA2 => RawEntry("product_id", data)
    case 0xA3 => RawEntry("hardware_model", data)
    case 0xA4 => RawEntry("firmware_version", data)
    case _ => InvalidEntry(ProductInfo, command, data)
  }

  function HandleSystemFunctions(command: byte, data: seq<byte>): Interpretation
  {
    match command
    case 0x01 => FlagEntry("heartbeat", data, 0x0F)
    case 0x80 => FlagEntry("heartbeat", data, 0x0F)
    case 0x02 => FlagEntry("reset", data, 0x0F)
    case _ => InvalidEntry(SystemFunction, command, data)
  }

  function HandleOperationStatus(command: byte, data: seq<byte>): Interpretation
  {
    match command
    case 0x01 => FlagEntry("init_complete", data, 0x01)
    case 0x81 => FlagEntry("init_complete", data, 0x01)
    case 0x07 => LabelEntry("scene_settings", SCENE_SETTINGS, data)
    case 0x87 => LabelEntry("scene_settings", SCENE_SETTINGS, data)
    case 0x08 => LabelEntry("sensitivity_settings", SENSITIVITY_SETTINGS, data)
    case 0x88 => LabelEntry("sensitivity_settings", SENSITIVITY_SETTINGS, data)
    case _ => InvalidEntry(OperationStatus, command, data)
  }

  function HandleUnderlyingOpenFunction(command: byte, data: seq<byte>): Interpretation
  {
    match command
    case 0x00 => FlagEntry("underlying_open_function", data, 0x01)
    case 0x01 => SamplesEntry("underlying_values", data)
    case _ => InvalidEntry(UnderlyingOpenFunction, command, data)
  }

  /** `format_data`: the one-entry record for a response (control word, command, payload). */
  function FormatData(control: byte, command: byte, data: seq<byte>): (r: Interpretation)
    ensures r.Success? ==> (r.value.key == "error" <==> r.value.value.Invalid?)
  {
    match control
    case 0x01 => HandleSystemFunctions(command, data)
    case 0x02 => HandleProductInfo(command, data)
    case 0x05 => HandleOperationStatus(command, data)
    case 0x07 => HandleRadarDetectionRange(command, data)
    case 0x08 => HandleUnderlyingOpenFunction(command, data)
    case 0x80 => HandleHumanPresence(command, data)
    case 0x81 => HandleRespiratoryMonitor(command, data)
    case 0x84 => HandleSleepMonitor(command, data)
    case 0x85 => HandleHeartRateMonitor(command, data)
    case _ => Success(Entry("error", Invalid(InvalidControlWord)))
  }

  // ---------------------------------------------------------------------------
  // A declarative reading table, written independently of the handlers

  /** How a reading is computed from the payload. */
  datatype Decoder =
    | FlagWhen(key: string, on: byte)         // true exactly when the payload is the one byte `on`
    | Integer(key: string)                    // big-endian value of the whole payload
    | Bytes(key: string)                      // the payload itself
    | Values(key: string)                     // the payload's byte values
    | LabelFrom(key: string, labels: seq<string>)  // label at the payload's big-endian value

  function Apply(dec: Decoder, data: seq<byte>): Interpretation
  {
    match dec
    case FlagWhen(key, on) => Success(Entry(key, Flag(data == [on])))
    case Integer(key) => Success(Entry(key, Number(FromBytesBig(data))))
    case Bytes(key) => Success(Entry(key, Raw(data)))
    case Values(key) => Success(Entry(key, Samples(ByteValues(data))))
    case LabelFrom(key, labels) =>
      if FromBytesBig(data) < |labels| then Success(Entry(key, Label(labels[FromBytesBig(data)])))
      else Failure(IndexOutOfRange(key, FromBytesBig(data), |labels|))
  }

  /** Every command each subsystem understands, and the reading it yields. */
  function Readings(subsystem: Subsystem): map<byte, Decoder>
  {
    match subsystem
    case SystemFunction => map[
      0x01 := FlagWhen("heartbeat", 0x0F),
      0x80 := FlagWhen("heartbeat", 0x0F),
      0x02 := FlagWhen("reset", 0x0F)]
    case ProductInfo => map[
      0xA1 := Bytes("model"),
      0xA2 := Bytes("product_id"),
      0xA3 := Bytes("hardware_model"),
      0xA4 := Bytes("firmware_version")]
    case OperationStatus => map[
      0x01 := FlagWhen("init_complete", 0x01),
      0x81 := FlagWhen("init_complete", 0x01),
      0x07 := LabelFrom("scene_settings", SCENE_SETTINGS),
      0x87 := LabelFrom("scene_settings", SCENE_SETTINGS),
      0x08 := LabelFrom("sensitivity_settings", SENSITIVITY_SETTINGS),
      0x88 := LabelFrom("sensitivity_settings", SENSITIVITY_SETTINGS)]
    case DetectionRange => map[
      0x07 := FlagWhen("in_range", 0x01),
      0x87 := FlagWhen("in_range", 0x01)]
    case UnderlyingOpenFunction => map[
      0x00 := FlagWhen("underlying_open_function", 0x01),
      0x01 := Values("underlying_values")]
    case PresenceMonitoring => map[
      0x00 := FlagWhen("presence_monitoring", 0x01),
      0x01 := FlagWhen("existence_status", 0x01),
      0x02 := LabelFrom("movement_status", MOVEMENT_STATUS_LABELS),
      0x03 := Integer("movement_energy"),
      0x04 := Integer("presence_distance"),
      0x05 := Integer("presence_orientation"),
      0x0A := LabelFrom("set_presence_time", PRESENCE_TIMES),
      0x81 := FlagWhen("existence_status", 0x01)]
    case RespiratoryMonitoring => map[
      0x00 := FlagWhen("respiratory_monitoring", 0x01),
      0x01 := Integer("respiratory_rate"),
      0x02 := Values("respiratory_waveform"),
      0x82 := Integer("respiratory_rate")]
    case SleepMonitoring => map[
      0x00 := FlagWhen("sleep_monitoring", 0x01),
      0x01 := LabelFrom("bed_status", BED_STATUS),
      0x02 := LabelFrom("sleep_status", SLEEP_STATUS),
      0x03 := Integer("awake_duration"),
      0x04 := Integer("light_sleep_duration"),
      0x05 := Integer("deep_sleep_duration")]
    case HeartRateMonitoring => map[
      0x00 := FlagWhen("heart_monitoring", 0x01),
      0x02 := Integer("heart_rate"),
      0x05 := Values("heart_waveform"),
      0x82 := Integer("heart_rate")]
  }

  function SubsystemOf(control: byte): Option<Subsystem>
  {
    match control
    case 0x01 => Some(SystemFunction)
    case 0x02 => Some(ProductInfo)
    case 0x05 => Some(OperationStatus)
    case 0x07 => Some(DetectionRange)
    case 0x08 => Some(UnderlyingOpenFunction)
    case 0x80 => Some(PresenceMonitoring)
    case 0x81 => Some(RespiratoryMonitoring)
    case 0x84 => Some(SleepMonitoring)
    case 0x85 => Some(HeartRateMonitoring)
    case _ => None
  }

  /** The reading `format_data` gives a response, according to the table. */
  function Tabulated(control: byte, command: byte, data: seq<byte>): Interpretation
  {
    match SubsystemOf(control)
    case None => Success(Entry("error", Invalid(InvalidControlWord)))
    case Some(subsystem) => TabulatedIn(subsystem, command, data)
  }

  function TabulatedIn(subsystem: Subsystem, command: byte, data: seq<byte>): Interpretation
  {
    if command in Readings(subsystem) then Apply(Readings(subsystem)[command], data)
    else Success(Entry("error", Invalid(InvalidCommand(subsystem, command, data))))
  }

  /**
    `format_data` agrees with the reading table on every input: a listed command is decoded as
    listed, an unlisted command of a known subsystem names that subsystem, anything else is an
    invalid control word.
  */
  lemma FormatDataFollowsTable(control: byte, command: byte, data: seq<byte>)
    ensures FormatData(control, command, data) == Tabulated(control, command, data)
  {
    match control
    case 0x01 => SystemFunctionsFollowTable(command, data);
    case 0x02 => ProductInfoFollowsTable(command, data);
    case 0x05 => OperationStatusFollowsTable(command, data);
    case 0x07 => DetectionRangeFollowsTable(command, data);
    case 0x08 => UnderlyingOpenFunctionFollowsTable(command, data);
    case 0x80 => HumanPresenceFollowsTable(command, data);
    case 0x81 => RespiratoryMonitorFollowsTable(command, data);
    case 0x84 => SleepMonitorFollowsTable(command, data);
    case 0x85 => HeartRateMonitorFollowsTable(command, data);
    case _ =>
  }


  lemma SystemFunctionsFollowTable(command: byte, data: seq<byte>)
    ensures HandleSystemFunctions(command, data) == TabulatedIn(SystemFunction, command, data)
  {
  }

  lemma ProductInfoFollowsTable(command: byte, data: seq<byte>)
    ensures HandleProductInfo(command, data) == TabulatedIn(ProductInfo, command, data)
  {
  }

  lemma OperationStatusFollowsTable(command: byte, data: seq<byte>)
    ensures HandleOperationStatus(command, data) == TabulatedIn(OperationStatus, command, data)
  {
  }

  lemma DetectionRangeFollowsTable(command: byte, data: seq<byte>)
    ensures HandleRadarDetectionRange(command, data) == TabulatedIn(DetectionRange, command, data)
  {
  }

  lemma UnderlyingOpenFunctionFollowsTable(command: byte, data: seq<byte>)
    ensures HandleUnderlyingOpenFunction(command, data) == TabulatedIn(UnderlyingOpenFunction, command, data)
  {
  }

  lemma HumanPresenceFollowsTable(command: byte, data: seq<byte>)
    ensures HandleHumanPresence(command, data) == TabulatedIn(PresenceMonitoring, command, data)
  {
  }

  lemma RespiratoryMonitorFollowsTable(command: byte, data: seq<byte>)
    ensures HandleRespiratoryMonitor(command, data) == TabulatedIn(RespiratoryMonitoring, command, data)
  {
  }

  lemma SleepMonitorFollowsTable(command: byte, data: seq<byte>)
    ensures HandleSleepMonitor(command, data) == TabulatedIn(SleepMonitoring, command, data)
  {
  }

  lemma HeartRateMonitorFollowsTable(command: byte, data: seq<byte>)
    ensures HandleHeartRateMonitor(command, data) == TabulatedIn(HeartRateMonitoring, command, data)
  {
  }

  // ---------------------------------------------------------------------------
  // Properties of the interpretation

  /** "Invalid Control Word" is given exactly for the control words no handler serves. */
  lemma ControlWordUnknown(control: byte, command: byte, data: seq<byte>)
    ensures (FormatData(control, command, data) == Success(Entry("error", Invalid(InvalidControlWord))))
        <==> SubsystemOf(control).None?
  {
    FormatDataFollowsTable(control, command, data);
  }

  /** Under a known control word, the subsystem's "Invalid ... Command" error is given exactly for unlisted commands. */
  lemma CommandUnknown(control: byte, command: byte, data: seq<byte>)
    requires SubsystemOf(control).Some?
    ensures var subsystem := SubsystemOf(control).value;
      (FormatData(control, command, data) == Success(Entry("error", Invalid(InvalidCommand(subsystem, command, data)))))
      <==> command !in Readings(subsystem)
  {
    FormatDataFollowsTable(control, command, data);
  }

  /** `IndexError` is raised exactly when a label command's payload indexes past its table. */
  lemma LabelIndexOutOfRange(control: byte, command: byte, data: seq<byte>)
    ensures FormatData(control, command, data).Failure? <==>
      && SubsystemOf(control).Some?
      && command in Readings(SubsystemOf(control).value)
      && Readings(SubsystemOf(control).value)[command].LabelFrom?
      && FromBytesBig(data) >= |Readings(SubsystemOf(control).value)[command].labels|
  {
    FormatDataFollowsTable(control, command, data);
  }

  /** The one-byte flag that reads as on: 0x0F for the system functions, 0x01 elsewhere. */
  function OnByte(control: byte): byte
  {
    if control == SYSTEM_FUNCTIONS then 0x0F else 0x01
  }

  /**
    A reading is a plain function of the payload: flags are on exactly for the single on byte,
    integers are the big-endian value of the whole payload, raw bytes and byte values are the
    payload unchanged, labels are the table entry at the payload's value.
  */
  ghost predicate ReflectsPayload(control: byte, command: byte, data: seq<byte>, v: Value)
  {
    && (v.Flag? ==> (v.on <==> data == [OnByte(control)]))
    && (v.Number? ==> v.n == FromBytesBig(data))
    && (v.Raw? ==> v.bytes == data)
    && (v.Samples? ==> |v.values| == |data| && forall i | 0 <= i < |data| :: v.values[i] == data[i] as nat)
    && (v.Label? ==>
          var sub := SubsystemOf(control);
          && sub.Some? && command in Readings(sub.value) && Readings(sub.value)[command].LabelFrom?
          && FromBytesBig(data) < |Readings(sub.value)[command].labels|
          && v.name == Readings(sub.value)[command].labels[FromBytesBig(data)])
  }

  /** Every reading `format_data` returns reflects its payload as `ReflectsPayload` says. */
  lemma ReadingsReflectPayload(control: byte, command: byte, data: seq<byte>)
    requires FormatData(control, command, data).Success?
    ensures ReflectsPayload(control, command, data, FormatData(control, command, data).value.value)
  {
    FormatDataFollowsTable(control, command, data);
    TabulatedReflectsPayload(control, command, data);
  }

  lemma TabulatedReflectsPayload(control: byte, command: byte, data: seq<byte>)
    requires Tabulated(control, command, data).Success?
    ensures ReflectsPayload(control, command, data, Tabulated(control, command, data).value.value)
  {
    var sub := SubsystemOf(control);
    if sub.Some? && command in Readings(sub.value) {
      var dec := Readings(sub.value)[command];
      FlagsUseOnByte(sub.value, command);
      assert Tabulated(control, command, data) == Apply(dec, data);
      assert dec.FlagWhen? ==> dec.on == OnByte(control);
    }
  }

  /** The system-function flags are on for 0x0F, every other flag for 0x01. */
  lemma FlagsUseOnByte(sub: Subsystem, command: byte)
    requires command in Readings(sub)
    ensures Readings(sub)[command].FlagWhen? ==>
      Readings(sub)[command].on == if sub == SystemFunction then 0x0F else 0x01
  {
  }

  /** The key of a reading depends on the request only, never on the payload. */
  lemma KeyDependsOnRequestOnly(control: byte, command: byte, data1: seq<byte>, data2: seq<byte>)
    requires FormatData(control, command, data1).Success? && FormatData(control, command, data2).Success?
    ensures FormatData(control, command, data1).value.key == FormatData(control, command, data2).value.key
  {
    FormatDataFollowsTable(control, command, data1);
    FormatDataFollowsTable(control, command, data2);
  }

  /** Query commands and their report counterparts give identical readings. */
  lemma QueryAndReportAgree(data: seq<byte>)
    ensures FormatData(HEART, 0x02, data) == FormatData(HEART, 0x82, data)
    ensures FormatData(PRESENCE, 0x01, data) == FormatData(PRESENCE, 0x81, data)
    ensures FormatData(OPERATION_STATUS, 0x01, data) == FormatData(OPERATION_STATUS, 0x81, data)
    ensures FormatData(OPERATION_STATUS, 0x07, data) == FormatData(OPERATION_STATUS, 0x87, data)
    ensures FormatData(OPERATION_STATUS, 0x08, data) == FormatData(OPERATION_STATUS, 0x88, data)
    ensures FormatData(DETECTION_RANGE, 0x07, data) == FormatData(DETECTION_RANGE, 0x87, data)
    ensures FormatData(SYSTEM_FUNCTIONS, 0x01, data) == FormatData(SYSTEM_FUNCTIONS, 0x80, data)
  {
  }

  /** Respiratory command 0x01 reads as the rate: the speed label of the same key is shadowed. */
  lemma RespiratoryRateShadowsSpeed(data: seq<byte>)
    ensures FormatData(RESPIRATORY, 0x01, data) == Success(Entry("respiratory_rate", Number(FromBytesBig(data))))
  {
  }

  /** Worked examples: presence reported, a heart rate of 72, an unknown control word. */
  lemma InterpretationExamples()
    ensures FormatData(PRESENCE, EXISTENCE_STATUS, [0x01]) == Success(Entry("existence_status", Flag(true)))
    ensures FormatData(PRESENCE, EXISTENCE_STATUS, [0x01, 0x01]) == Success(Entry("existence_status", Flag(false)))
    ensures FormatData(HEART, HEART_RATE, [0x00, 0x48]) == Success(Entry("heart_rate", Number(72)))
    ensures FormatData(0xFF, 0x01, [0x01]) == Success(Entry("error", Invalid(InvalidControlWord)))
    ensures FormatData(SLEEP, 0x01, [0x03]) == Failure(IndexOutOfRange("bed_status", 3, 3))
  {
    PairValue(0x00, 0x48);
    assert FromBytesBig([0x03]) == 3 by {
      assert [0x03 as byte][..0] == [];
    }
  }
}
