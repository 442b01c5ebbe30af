/** Mode: the OBD-II service number sent as the first byte of a request. */
module Modes {
  import opened Wrappers
  import opened JavaText
  import opened Lookup

  datatype Mode = CurrentData | FreezeFrameData | Diagnostic | ClearTroubleCodes | VehicleInfo

  /** The service number of each mode. */
  function Code(m: Mode): nat {
    match m
    case CurrentData => 1
    case FreezeFrameData => 2
    case Diagnostic => 3
    case ClearTroubleCodes => 4
    case VehicleInfo => 9
  }

  /** Code as a function value, for the lookup. */
  const CodeOf: Mode -> int := m => Code(m)

  /** Mode.values(), in declaration order. */
  const Values: seq<Mode> := [CurrentData, FreezeFrameData, Diagnostic, ClearTroubleCodes, VehicleInfo]

  /** hex(): the code as two lowercase hex digits, zero-padded. */
  function Hex(m: Mode): (s: string)
    ensures s == ['0', HexChar(Code(m))]
  {
    Hex2Digits(Code(m));
    Hex2(Code(m))
  }

  /** hex() reads back as the code under Integer.parseInt(s, 16). */
  lemma HexParses(m: Mode)
    ensures ParseHexInt(Hex(m)) == Ok(Code(m))
  {
    Hex2Digits(Code(m));
  }

  /**
   * parseHex: null is rejected, the text is read by Integer.parseInt(hex, 16), and the first mode
   * with that code is returned; no such mode is an error.
   */
  function ParseHex(hex: Option<string>): (r: Result<Mode>)
    ensures r.Ok? ==> hex.Some? && ParseHexInt(hex.value) == Ok(Code(r.value))
    ensures hex.None? ==> r == Err(InvalidMode)
    ensures r.Err? ==> r.error == InvalidMode || r.error == NumberFormat
  {
    match hex
    case None => Err(InvalidMode)
    case Some(s) =>
      match ParseHexInt(s)
      case Err(e) => Err(e)
      case Ok(code) =>
        match FirstWithCode(Values, CodeOf, code)
        case None => Err(InvalidMode)
        case Some(m) => Ok(m)
  }

  /** Every mode is in Values and no two modes share a code, so the lookup is deterministic. */
  lemma CodesDistinct(m: Mode, n: Mode)
    ensures m in Values
    ensures Code(m) == Code(n) ==> m == n
  {
    match m
    case CurrentData => assert Values[0] == m;
    case FreezeFrameData => assert Values[1] == m;
    case Diagnostic => assert Values[2] == m;
    case ClearTroubleCodes => assert Values[3] == m;
    case VehicleInfo => assert Values[4] == m;
  }

  lemma Found(m: Mode)
    ensures FirstWithCode(Values, CodeOf, Code(m)) == Some(m)
  {
    forall i | 0 <= i < |Values| && Code(Values[i]) == Code(m)
      ensures Values[i] == m
    {
      CodesDistinct(Values[i], m);
    }
    CodesDistinct(m, m);
    FirstWithCodeFinds(Values, CodeOf, m);
  }

  /** parseHex(m.hex()) == m for every mode. */
  lemma ParseHexRoundTrip(m: Mode)
    ensures ParseHex(Some(Hex(m))) == Ok(m)
  {
    HexParses(m);
    Found(m);
  }

  /** A parsed code outside {1, 2, 3, 4, 9} is an invalid mode, as is null; text that is not hex fails to parse. */
  lemma ParseHexErrors(s: string)
    ensures ParseHexInt(s).Err? ==> ParseHex(Some(s)) == Err(NumberFormat)
    ensures ParseHexInt(s).Ok? && ParseHexInt(s).value !in {1, 2, 3, 4, 9} ==> ParseHex(Some(s)) == Err(InvalidMode)
    ensures ParseHex(None) == Err(InvalidMode)
  {
  }

  /** parseHex returns m exactly when the text parses to m's code. */
  lemma ParseHexIff(s: string, m: Mode)
    ensures ParseHex(Some(s)) == Ok(m) <==> ParseHexInt(s) == Ok(Code(m))
  {
    if ParseHexInt(s) == Ok(Code(m)) {
      Found(m);
    }
  }
}
