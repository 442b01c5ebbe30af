/** FuelStatus: the fuel system status byte of service $01 PID $03. */
module FuelStatuses {
  import opened Wrappers
  import opened JavaText
  import opened Lookup

  datatype FuelStatus =
    | OpenLowTemp             // open loop, engine too cold
    | ClosedUsingOxygen       // closed loop on oxygen sensor feedback
    | OpenLoad                // open loop for engine load or deceleration fuel cut
    | OpenFailure             // open loop on system failure
    | ClosedFailureFeedback   // closed loop with a fault in the feedback system
    | Zero5
    | Zero6
    | Zero7

  /** getCode(). */
  function Code(s: FuelStatus): nat {
    match s
    case OpenLowTemp => 0x00
    case ClosedUsingOxygen => 0x01
    case OpenLoad => 0x02
    case OpenFailure => 0x03
    case ClosedFailureFeedback => 0x04
    case Zero5 => 0x05
    case Zero6 => 0x06
    case Zero7 => 0x07
  }

  /** Code as a function value, for the lookup. */
  const CodeOf: FuelStatus -> int := s => Code(s)

  /** FuelStatus.values(), in declaration order. */
  const Values: seq<FuelStatus> :=
    [OpenLowTemp, ClosedUsingOxygen, OpenLoad, OpenFailure, ClosedFailureFeedback, Zero5, Zero6, Zero7]

  /** parseHex: null is rejected, then the first status whose code is the parsed value. */
  function ParseHex(hex: Option<string>): (r: Result<FuelStatus>)
    ensures r.Ok? ==> hex.Some? && ParseHexInt(hex.value) == Ok(Code(r.value))
    ensures hex.None? ==> r == Err(InvalidHexCode)
    ensures r.Err? ==> r.error == InvalidHexCode || r.error == NumberFormat || r.error == UnknownStatus
  {
    match hex
    case None => Err(InvalidHexCode)
    case Some(s) =>
      match ParseHexInt(s)
      case Err(e) => Err(e)
      case Ok(code) =>
        match FirstWithCode(Values, CodeOf, code)
        case None => Err(UnknownStatus)
        case Some(status) => Ok(status)
  }

  /** Every status is listed once: it is in Values and no other status has its code. */
  lemma CodeUnique(s: FuelStatus, t: FuelStatus)
    ensures s in Values
    ensures Code(s) == Code(t) ==> s == t
  {
    match s
    case OpenLowTemp => assert Values[0] == s;
    case ClosedUsingOxygen => assert Values[1] == s;
    case OpenLoad => assert Values[2] == s;
    case OpenFailure => assert Values[3] == s;
    case ClosedFailureFeedback => assert Values[4] == s;
    case Zero5 => assert Values[5] == s;
    case Zero6 => assert Values[6] == s;
    case Zero7 => assert Values[7] == s;
  }

  lemma Found(s: FuelStatus)
    ensures FirstWithCode(Values, CodeOf, Code(s)) == Some(s)
  {
    forall i | 0 <= i < |Values| && CodeOf(Values[i]) == Code(s)
      ensures Values[i] == s
    {
      CodeUnique(Values[i], s);
    }
    CodeUnique(s, s);
    FirstWithCodeFinds(Values, CodeOf, s);
  }

  /** parseHex returns s exactly when the text parses to s's code. */
  lemma ParseHexIff(text: string, s: FuelStatus)
    ensures ParseHex(Some(text)) == Ok(s) <==> ParseHexInt(text) == Ok(Code(s))
  {
    if ParseHexInt(text) == Ok(Code(s)) {
      Found(s);
    }
  }

  /** Every code 0x00..0x07 decodes to the status with that code; any other value is unknown. */
  lemma ParseHexRange(text: string, c: int)
    requires ParseHexInt(text) == Ok(c)
    ensures 0 <= c <= 7 ==> ParseHex(Some(text)).Ok? && Code(ParseHex(Some(text)).value) == c
    ensures !(0 <= c <= 7) ==> ParseHex(Some(text)) == Err(UnknownStatus)
  {
    if 0 <= c <= 7 {
      var s := Values[c];
      assert Code(s) == c;
      Found(s);
    }
  }

  /** Text that is not hex fails as Integer.parseInt does, and null is rejected. */
  lemma ParseHexMalformed(text: string)
    ensures ParseHexInt(text).Err? ==> ParseHex(Some(text)) == Err(NumberFormat)
    ensures ParseHex(None) == Err(InvalidHexCode)
  {
  }

  /** parseHex(Integer.toHexString(s.getCode())) == s for every status. */
  lemma ParseHexRoundTrip(s: FuelStatus)
    ensures ParseHex(Some(ToHexString(Code(s)))) == Ok(s)
  {
    ParseToHexString(Code(s));
    Found(s);
  }
}
