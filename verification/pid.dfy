/**
 * PID: the parameter identifiers of the modelled requests, each with the modes it may be sent
 * in, and the lookup of a PID from the code in an answer and the answer's mode.
 */
module Pids {
  import opened Wrappers
  import opened JavaText
  import opened Modes

  datatype Pid =
    | DiagnosticCodes
    | ClearTroubleCodesPid
    | VinCountOfBytes
    | Vin
    | PidsSupported
    | MonitorStatus
    | FuelStatus
    | EngineLoad
    | EngineCoolantTemperature
    | FuelTrimPercentShortBank1
    | FuelTrimPercentLongBank1
    | FuelTrimPercentShortBank2
    | FuelTrimPercentLongBank2
    | IntakeAirTemperature
    | IntakeAirTemperatureSensor
    | SecondaryAirStatus
    | EcuCompatibility
    | DistanceWithMalfunction
    | CommandedEgr
    | EgrError
    | FuelLevelInput
    | DistanceFromCodesCleared
    | CatalystTemperatureBank1Sensor1
    | CatalystTemperatureBank2Sensor1
    | CatalystTemperatureBank1Sensor2
    | CatalystTemperatureBank2Sensor2
    | AmbientAirTemperature
    | EthanolFuel
    | EngineOilTemperature
    | FuelInjectionTiming
    | FuelRate
    | ExhaustGasRecirculationTemperature
    | ManifoldSurfaceTemperature

  /** The PID code of each constant. */
  function Code(p: Pid): nat {
    match p
    case DiagnosticCodes => 0
    case ClearTroubleCodesPid => 0
    case VinCountOfBytes => 1
    case Vin => 2
    case PidsSupported => 0
    case MonitorStatus => 1
    case FuelStatus => 3
    case EngineLoad => 4
    case EngineCoolantTemperature => 5
    case FuelTrimPercentShortBank1 => 6
    case FuelTrimPercentLongBank1 => 7
    case FuelTrimPercentShortBank2 => 8
    case FuelTrimPercentLongBank2 => 9
    case IntakeAirTemperature => 0x0F
    case IntakeAirTemperatureSensor => 0x68
    case SecondaryAirStatus => 0x12
    case EcuCompatibility => 0x1c
    case DistanceWithMalfunction => 0x21
    case CommandedEgr => 0x2c
    case EgrError => 0x2d
    case FuelLevelInput => 0x2F
    case DistanceFromCodesCleared => 0x31
    case CatalystTemperatureBank1Sensor1 => 0x3c
    case CatalystTemperatureBank2Sensor1 => 0x3d
    case CatalystTemperatureBank1Sensor2 => 0x3e
    case CatalystTemperatureBank2Sensor2 => 0x3f
    case AmbientAirTemperature => 0x46
    case EthanolFuel => 0x51
    case EngineOilTemperature => 0x5c
    case FuelInjectionTiming => 0x5d
    case FuelRate => 0x5e
    case ExhaustGasRecirculationTemperature => 0x6b
    case ManifoldSurfaceTemperature => 0x84
  }

  /** The modes each constant may be sent in, in the order its constructor lists them. */
  function AllowedModes(p: Pid): seq<Mode> {
    match p
    case DiagnosticCodes => [Diagnostic]
    case ClearTroubleCodesPid => [ClearTroubleCodes]
    case VinCountOfBytes => [VehicleInfo]
    case Vin => [VehicleInfo]
    case PidsSupported => [CurrentData]
    case EcuCompatibility => [CurrentData]
    case _ => [FreezeFrameData, CurrentData]
  }

  /** hex(): the code as two lowercase hex digits, zero-padded. */
  function Hex(p: Pid): (s: string)
    ensures s == [HexChar(Code(p) / 16), HexChar(Code(p) % 16)]
  {
    Hex2Digits(Code(p));
    Hex2(Code(p))
  }

  /** hex() reads back as the code under Integer.parseInt(s, 16). */
  lemma HexParses(p: Pid)
    ensures ParseHexInt(Hex(p)) == Ok(Code(p))
  {
    Hex2Digits(Code(p));
  }

  /** valid(mode, pid): the pid itself when the mode is one of its allowed modes, else an error. */
  function Valid(mode: Mode, p: Pid): (r: Result<Pid>)
    ensures r.Ok? <==> mode in AllowedModes(p)
    ensures r.Ok? ==> r.value == p
    ensures r.Err? ==> r.error == PidNotAllowed
  {
    if mode in AllowedModes(p) then Ok(p) else Err(PidNotAllowed)
  }

  /**
   * The constant the switch of parseHex hands to valid for a code, or None for the default case.
   * Code 0 outside the three modes that own it falls through into case 1, and codes 7 and 8
   * select FuelTrimPercentLongBank2 and FuelTrimPercentShortBank1, as the switch is written.
   */
  function SwitchTarget(code: int, mode: Mode): Option<Pid> {
    if code == 0 && mode == CurrentData then Some(PidsSupported)
    else if code == 0 && mode == Diagnostic then Some(DiagnosticCodes)
    else if code == 0 && mode == ClearTroubleCodes then Some(ClearTroubleCodesPid)
    else if code == 0 || code == 1 then
      (if mode == VehicleInfo then Some(VinCountOfBytes) else Some(MonitorStatus))
    else if code == 2 then Some(Vin)
    else if code == 3 then Some(FuelStatus)
    else if code == 4 then Some(EngineLoad)
    else if code == 5 then Some(EngineCoolantTemperature)
    else if code == 6 then Some(FuelTrimPercentShortBank1)
    else if code == 7 then Some(FuelTrimPercentLongBank2)
    else if code == 8 then Some(FuelTrimPercentShortBank1)
    else if code == 9 then Some(FuelTrimPercentLongBank2)
    else if code == 0x0F then Some(IntakeAirTemperature)
    else if code == 0x12 then Some(SecondaryAirStatus)
    else if code == 0x1C then Some(EcuCompatibility)
    else if code == 0x21 then Some(DistanceWithMalfunction)
    else if code == 0x2c then Some(CommandedEgr)
    else if code == 0x2d then Some(EgrError)
    else if code == 0x2F then Some(FuelLevelInput)
    else if code == 0x31 then Some(DistanceFromCodesCleared)
    else if code == 0x3c then Some(CatalystTemperatureBank1Sensor1)
    else if code == 0x3d then Some(CatalystTemperatureBank2Sensor1)
    else if code == 0x3e then Some(CatalystTemperatureBank1Sensor2)
    else if code == 0x3f then Some(CatalystTemperatureBank2Sensor2)
    else if code == 0x46 then Some(AmbientAirTemperature)
    else if code == 0x51 then Some(EthanolFuel)
    else if code == 0x5c then Some(EngineOilTemperature)
    else if code == 0x5d then Some(FuelInjectionTiming)
    else if code == 0x5e then Some(FuelRate)
    else if code == 0x68 then Some(IntakeAirTemperatureSensor)
    else if code == 0x6b then Some(ExhaustGasRecirculationTemperature)
    else if code == 0x84 then Some(ManifoldSurfaceTemperature)
    else None
  }

  /**
   * parseHex(hex, mode): null is an invalid PID, the text is read by Integer.parseInt(hex, 16),
   * a code the switch does not list is an invalid PID, and the selected constant must pass valid.
   */
  function ParseHex(hex: Option<string>, mode: Mode): (r: Result<Pid>)
    ensures r.Ok? ==> mode in AllowedModes(r.value)
    ensures hex.None? ==> r == Err(InvalidPid)
    ensures r.Err? ==> r.error in {InvalidPid, NumberFormat, PidNotAllowed}
  {
    match hex
    case None => Err(InvalidPid)
    case Some(s) =>
      match ParseHexInt(s)
      case Err(e) => Err(e)
      case Ok(code) =>
        match SwitchTarget(code, mode)
        case None => Err(InvalidPid)
        case Some(p) => Valid(mode, p)
  }

  /** The switch only selects constants whose own code is the one switched on, or 1 for code 0 (the fall-through). */
  lemma SwitchTargetCode(code: int, mode: Mode)
    ensures SwitchTarget(code, mode).Some? ==>
      var p := SwitchTarget(code, mode).value;
      Code(p) == code || (code == 0 && Code(p) == 1) || (code == 7 && Code(p) == 9) || (code == 8 && Code(p) == 6)
  {
  }

  /** Code 0 is mode-scoped; outside its three modes it falls through into case 1. */
  lemma CodeZero(s: string, mode: Mode)
    requires ParseHexInt(s) == Ok(0)
    ensures ParseHex(Some(s), mode) == match mode
      case CurrentData => Ok(PidsSupported)
      case Diagnostic => Ok(DiagnosticCodes)
      case ClearTroubleCodes => Ok(ClearTroubleCodesPid)
      case FreezeFrameData => Ok(MonitorStatus)
      case VehicleInfo => Ok(VinCountOfBytes)
  {
  }

  /** Code 1 in the Diagnostic and ClearTroubleCodes modes selects MonitorStatus, which they may not send. */
  lemma CodeOneNotAllowed(s: string, mode: Mode)
    requires ParseHexInt(s) == Ok(1) && (mode == Diagnostic || mode == ClearTroubleCodes)
    ensures ParseHex(Some(s), mode) == Err(PidNotAllowed)
  {
  }

  /** Codes 7 and 8 select bank 2 long term and bank 1 short term. */
  lemma CodesSevenAndEight(s: string, mode: Mode)
    requires mode == FreezeFrameData || mode == CurrentData
    ensures ParseHexInt(s) == Ok(7) ==> ParseHex(Some(s), mode) == Ok(FuelTrimPercentLongBank2)
    ensures ParseHexInt(s) == Ok(8) ==> ParseHex(Some(s), mode) == Ok(FuelTrimPercentShortBank1)
  {
  }

  /** Hence the long-term bank 1 and short-term bank 2 constants are never the result of parseHex. */
  lemma NeverParsed(hex: Option<string>, mode: Mode)
    ensures ParseHex(hex, mode) != Ok(FuelTrimPercentLongBank1)
    ensures ParseHex(hex, mode) != Ok(FuelTrimPercentShortBank2)
  {
  }

  /** A code no case lists is an invalid PID whatever the mode. */
  lemma UnknownCode(s: string, mode: Mode)
    requires ParseHexInt(s).Ok?
    requires ParseHexInt(s).value !in {0, 1, 2, 3, 4, 5, 6, 7, 8, 9, 0x0F, 0x12, 0x1C, 0x21, 0x2c, 0x2d,
      0x2F, 0x31, 0x3c, 0x3d, 0x3e, 0x3f, 0x46, 0x51, 0x5c, 0x5d, 0x5e, 0x68, 0x6b, 0x84}
    ensures ParseHex(Some(s), mode) == Err(InvalidPid)
  {
  }

  /** The switch selects every constant for its own code in each mode it is allowed in, but two. */
  lemma SwitchSelects(p: Pid, mode: Mode)
    requires mode in AllowedModes(p)
    requires p != FuelTrimPercentLongBank1 && p != FuelTrimPercentShortBank2
    ensures SwitchTarget(Code(p), mode) == Some(p)
  {
    match p
    case DiagnosticCodes => assert mode == Diagnostic;
    case ClearTroubleCodesPid => assert mode == ClearTroubleCodes;
    case VinCountOfBytes => assert mode == VehicleInfo;
    case PidsSupported => assert mode == CurrentData;
    case MonitorStatus => assert mode != VehicleInfo;
    case _ =>
  }

  /**
   * parseHex(p.hex(), m) == p for every constant p and every mode m it is allowed in, except the
   * two constants the switch never selects.
   */
  lemma ParseHexRoundTrip(p: Pid, mode: Mode)
    requires mode in AllowedModes(p)
    requires p != FuelTrimPercentLongBank1 && p != FuelTrimPercentShortBank2
    ensures ParseHex(Some(Hex(p)), mode) == Ok(p)
  {
    HexParses(p);
    SwitchSelects(p, mode);
    ParseHexSelects(Hex(p), Code(p), mode, p);
  }

  /** A string that parses to a code the switch maps to an allowed constant gives that constant. */
  lemma ParseHexSelects(s: string, code: int, mode: Mode, p: Pid)
    requires ParseHexInt(s) == Ok(code) && SwitchTarget(code, mode) == Some(p)
    requires mode in AllowedModes(p)
    ensures ParseHex(Some(s), mode) == Ok(p)
  {
  }
}
