/** EcuCompatibility: the OBD standard the vehicle conforms to, service $01 PID $1C. */
module EcuCompatibilities {
  import opened Wrappers
  import opened JavaText
  import opened Lookup

  datatype EcuCompatibility =
    | Carb  // OBD-II as defined by the CARB
    | Epa  // OBD as defined by the EPA
    | ObdObdii  // OBD and OBD-II
    | Obdi  // OBD-I
    | Incompatible  // not meant to comply with any OBD standard
    | EobdObdii  // EOBD and OBD-II
    | EobdObd  // EOBD and OBD
    | EobdObdObdii  // EOBD, OBD and OBD II
    | Jobd  // JOBD (Japan)
    | JobdObdii  // JOBD and OBD II
    | JobdEobd  // JOBD and EOBD
    | JobdEobdObdii  // JOBD, EOBD, and OBD II

  /** getCode(). */
  function Code(s: EcuCompatibility): nat {
    match s
    case Carb => 0x01
    case Epa => 0x02
    case ObdObdii => 0x03
    case Obdi => 0x04
    case Incompatible => 0x05
    case EobdObdii => 0x06
    case EobdObd => 0x08
    case EobdObdObdii => 0x09
    case Jobd => 0x0A
    case JobdObdii => 0x0B
    case JobdEobd => 0x0C
    case JobdEobdObdii => 0x0D
  }

  /** Code as a function value, for the lookup. */
  const CodeOf: EcuCompatibility -> int := s => Code(s)

  /** EcuCompatibility.values(), in declaration order. */
  const Values: seq<EcuCompatibility> :=
    [Carb, Epa, ObdObdii, Obdi, Incompatible, EobdObdii, EobdObd, EobdObdObdii, Jobd, JobdObdii, JobdEobd, JobdEobdObdii]

  /** parseHex: null is rejected, then the first constant whose code is the parsed value. */
  function ParseHex(hex: Option<string>): (r: Result<EcuCompatibility>)
    ensures r.Ok? ==> hex.Some? && ParseHexInt(hex.value) == Ok(Code(r.value))
    ensures hex.None? ==> r == Err(InvalidHexCode)
    ensures r.Err? ==> r.error == InvalidHexCode || r.error == NumberFormat || r.error == UnknownStatus
  {
    match hex
    case None => Err(InvalidHexCode)
    case Some(s) =>
      match ParseHexInt(s)
      case Err(e) => Err(e)
      case Ok(code) =>
        match FirstWithCode(Values, CodeOf, code)
        case None => Err(UnknownStatus)
        case Some(status) => Ok(status)
  }

  /** Every constant is listed once: it is in Values and no other constant has its code. */
  lemma CodeUnique(s: EcuCompatibility, t: EcuCompatibility)
    ensures s in Values
    ensures Code(s) == Code(t) ==> s == t
  {
    match s
    case Carb => assert Values[0] == s;
    case Epa => assert Values[1] == s;
    case ObdObdii => assert Values[2] == s;
    case Obdi => assert Values[3] == s;
    case Incompatible => assert Values[4] == s;
    case EobdObdii => assert Values[5] == s;
    case EobdObd => assert Values[6] == s;
    case EobdObdObdii => assert Values[7] == s;
    case Jobd => assert Values[8] == s;
    case JobdObdii => assert Values[9] == s;
    case JobdEobd => assert Values[10] == s;
    case JobdEobdObdii => assert Values[11] == s;
  }

  lemma Found(s: EcuCompatibility)
    ensures FirstWithCode(Values, CodeOf, Code(s)) == Some(s)
  {
    forall i | 0 <= i < |Values| && CodeOf(Values[i]) == Code(s)
      ensures Values[i] == s
    {
      CodeUnique(Values[i], s);
    }
    CodeUnique(s, s);
    FirstWithCodeFinds(Values, CodeOf, s);
  }

  /** parseHex returns s exactly when the text parses to s's code. */
  lemma ParseHexIff(text: string, s: EcuCompatibility)
    ensures ParseHex(Some(text)) == Ok(s) <==> ParseHexInt(text) == Ok(Code(s))
  {
    if ParseHexInt(text) == Ok(Code(s)) {
      Found(s);
    }
  }

  /** The codes in use: 0x01..0x06 and 0x08..0x0D. */
  lemma CodeRange(s: EcuCompatibility)
    ensures 1 <= Code(s) <= 6 || 8 <= Code(s) <= 13
  {
  }

  /** Codes 0x01..0x06 and 0x08..0x0D decode to the constant with that code; 0x00, 0x07 and anything above 0x0D are unknown. */
  lemma ParseHexRange(text: string, c: int)
    requires ParseHexInt(text) == Ok(c)
    ensures (1 <= c <= 6 || 8 <= c <= 13) ==> ParseHex(Some(text)).Ok? && Code(ParseHex(Some(text)).value) == c
    ensures !(1 <= c <= 6 || 8 <= c <= 13) ==> ParseHex(Some(text)) == Err(UnknownStatus)
  {
    if (1 <= c <= 6 || 8 <= c <= 13) {
      var s := if c <= 6 then Values[c - 1] else Values[c - 2];
      assert Code(s) == c;
      Found(s);
    } else {
      match ParseHex(Some(text))
      case Ok(s) => CodeRange(s);
      case Err(_) =>
    }
  }

  /** Text that is not hex fails as Integer.parseInt does, and null is rejected. */
  lemma ParseHexMalformed(text: string)
    ensures ParseHexInt(text).Err? ==> ParseHex(Some(text)) == Err(NumberFormat)
    ensures ParseHex(None) == Err(InvalidHexCode)
  {
  }

  /** parseHex(Integer.toHexString(s.getCode())) == s for every constant. */
  lemma ParseHexRoundTrip(s: EcuCompatibility)
    ensures ParseHex(Some(ToHexString(Code(s)))) == Ok(s)
  {
    ParseToHexString(Code(s));
    Found(s);
  }
}
