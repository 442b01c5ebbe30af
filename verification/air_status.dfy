/** AirStatus: the commanded secondary air status, service $01 PID $12. */
module AirStatuses {
  import opened Wrappers
  import opened JavaText
  import opened Lookup

  datatype AirStatus =
    | Upstream  // upstream of the catalytic converter
    | Downstream  // downstream of the catalytic converter
    | OffOrOutside  // from the outside atmosphere, or off

  /** getCode(). */
  function Code(s: AirStatus): nat {
    match s
    case Upstream => 0x00
    case Downstream => 0x01
    case OffOrOutside => 0x02
  }

  /** Code as a function value, for the lookup. */
  const CodeOf: AirStatus -> int := s => Code(s)

  /** AirStatus.values(), in declaration order. */
  const Values: seq<AirStatus> :=
    [Upstream, Downstream, OffOrOutside]

  /** parseHex: null is rejected, then the first status whose code is the parsed value. */
  function ParseHex(hex: Option<string>): (r: Result<AirStatus>)
    ensures r.Ok? ==> hex.Some? && ParseHexInt(hex.value) == Ok(Code(r.value))
    ensures hex.None? ==> r == Err(InvalidHexCode)
    ensures r.Err? ==> r.error == InvalidHexCode || r.error == NumberFormat || r.error == UnknownStatus
  {
    match hex
    case None => Err(InvalidHexCode)
    case Some(s) =>
      match ParseHexInt(s)
      case Err(e) => Err(e)
      case Ok(code) =>
        match FirstWithCode(Values, CodeOf, code)
        case None => Err(UnknownStatus)
        case Some(status) => Ok(status)
  }

  /** Every status is listed once: it is in Values and no other status has its code. */
  lemma CodeUnique(s: AirStatus, t: AirStatus)
    ensures s in Values
    ensures Code(s) == Code(t) ==> s == t
  {
    match s
    case Upstream => assert Values[0] == s;
    case Downstream => assert Values[1] == s;
    case OffOrOutside => assert Values[2] == s;
  }

  lemma Found(s: AirStatus)
    ensures FirstWithCode(Values, CodeOf, Code(s)) == Some(s)
  {
    forall i | 0 <= i < |Values| && CodeOf(Values[i]) == Code(s)
      ensures Values[i] == s
    {
      CodeUnique(Values[i], s);
    }
    CodeUnique(s, s);
    FirstWithCodeFinds(Values, CodeOf, s);
  }

  /** parseHex returns s exactly when the text parses to s's code. */
  lemma ParseHexIff(text: string, s: AirStatus)
    ensures ParseHex(Some(text)) == Ok(s) <==> ParseHexInt(text) == Ok(Code(s))
  {
    if ParseHexInt(text) == Ok(Code(s)) {
      Found(s);
    }
  }

  /** Codes 0x00, 0x01, 0x02 decode to Upstream, Downstream, OffOrOutside; any other value is unknown. */
  lemma ParseHexRange(text: string, c: int)
    requires ParseHexInt(text) == Ok(c)
    ensures 0 <= c <= 2 ==> ParseHex(Some(text)).Ok? && Code(ParseHex(Some(text)).value) == c
    ensures !(0 <= c <= 2) ==> ParseHex(Some(text)) == Err(UnknownStatus)
  {
    if 0 <= c <= 2 {
      var s := Values[c];
      assert Code(s) == c;
      Found(s);
    }
  }

  /** Text that is not hex fails as Integer.parseInt does, and null is rejected. */
  lemma ParseHexMalformed(text: string)
    ensures ParseHexInt(text).Err? ==> ParseHex(Some(text)) == Err(NumberFormat)
    ensures ParseHex(None) == Err(InvalidHexCode)
  {
  }

  /** parseHex(Integer.toHexString(s.getCode())) == s for every status. */
  lemma ParseHexRoundTrip(s: AirStatus)
    ensures ParseHex(Some(ToHexString(Code(s)))) == Ok(s)
  {
    ParseToHexString(Code(s));
    Found(s);
  }
}
