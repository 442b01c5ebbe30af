/**
 * OBD2Standard: the OBD-II request/response layer over the adapter's port. A request is the mode
 * and PID as hex text; each answered line is classified as NO DATA, a 0x7F negative answer or a
 * data answer, and the getters decode the data bytes.
 */
module Obd2 {
  import opened Wrappers
  import opened JavaText
  import opened SerialUtils
  import F = Faults
  import M = Modes
  import P = Pids
  import FS = FuelStatuses
  import EC = EcuCompatibilities
  import AS = AirStatuses
  import MS = MonitorStatuses
  import S = Serial

  /**
   * One classified line. Answer is Response(isError, mode, pid, data) with null as None;
   * NoData is ResponseWithNoData(mode, pid), which is not an error and carries no data.
   */
  datatype Response =
    | Answer(isError: bool, mode: M.Mode, pid: Option<P.Pid>, data: Option<seq<string>>)
    | NoData(mode: M.Mode, requested: P.Pid)

  /** isError(). */
  predicate IsError(r: Response) {
    r.Answer? && r.isError
  }

  /** getData(). */
  function Data(r: Response): Option<seq<string>> {
    if r.Answer? then r.data else None
  }

  /** A response after which ask reads no further line. */
  predicate Stops(r: Response) {
    r.NoData? || r.isError
  }

  /** The strings ask writes: mode hex, PID hex, then the extra parameters (null: none). */
  function Request(mode: M.Mode, pid: P.Pid, hexParams: Option<seq<string>>): (r: seq<string>)
    ensures |r| >= 2 && r[0] == M.Hex(mode) && r[1] == P.Hex(pid)
    ensures hexParams.Some? ==> r[2..] == hexParams.value
    ensures hexParams.None? ==> |r| == 2
  {
    [M.Hex(mode), P.Hex(pid)] + (if hexParams.Some? then hexParams.value else [])
  }

  /**
   * The text a request puts on the wire: four hex digits that parse back to the mode and PID
   * codes, the parameters, then CR LF.
   */
  lemma RequestText(mode: M.Mode, pid: P.Pid, params: seq<string>)
    ensures var text := Concat(Request(mode, pid, Some(params)) + ["\r\n"]);
      |text| >= 6
      && text == M.Hex(mode) + P.Hex(pid) + Concat(params) + "\r\n"
      && ParseHexInt(text[..2]) == Ok(M.Code(mode))
      && ParseHexInt(text[2..4]) == Ok(P.Code(pid))
  {
    M.HexParses(mode);
    P.HexParses(pid);
    WireText(M.Hex(mode), P.Hex(pid), params);
  }

  /** Two two-character words, then the parameters and CR LF, written as one text. */
  lemma WireText(a: string, b: string, params: seq<string>)
    requires |a| == 2 && |b| == 2
    ensures var text := Concat([a, b] + params + ["\r\n"]);
      |text| >= 6 && text == a + b + Concat(params) + "\r\n" && text[..2] == a && text[2..4] == b
  {
    ConcatAppend([a, b], params);
    ConcatAppend([a, b] + params, ["\r\n"]);
    assert Concat(["\r\n"]) == "\r\n" by {
      assert ["\r\n"][..0] == [];
    }
    assert Concat([a, b]) == a + b by {
      assert [a, b][..1] == [a] && [a][..0] == [];
    }
    var text := a + b + Concat(params) + "\r\n";
    assert text[..2] == a;
    assert text[2..4] == b;
  }

  /** DIAGNOSTIC and CLEAR_TROUBLE_CODES answers carry no PID, so their data starts a token earlier. */
  function DataOffset(mode: M.Mode): (n: nat)
    ensures n == 1 || n == 2
  {
    if mode == M.Diagnostic || mode == M.ClearTroubleCodes then 1 else 2
  }

  /**
   * The PID an answer names in its second token, parsed as parseHex does for the mode; a line
   * with a single token has none.
   */
  function SecondPid(mode: M.Mode, vals: seq<string>): (r: Result<P.Pid>)
    ensures r.Ok? ==> mode in P.AllowedModes(r.value)
    ensures r.Err? ==> r.error != InvalidResponse
    ensures |vals| < 2 ==> r == Err(IndexOutOfBounds)
    ensures |vals| >= 2 && ParseHexInt(vals[1]).Err? ==> r == Err(NumberFormat)
    ensures |vals| >= 2 && ParseHexInt(vals[1]).Ok? ==>
      match P.SwitchTarget(ParseHexInt(vals[1]).value, mode)
      case None => r == Err(InvalidPid)
      case Some(target) => r == (if mode in P.AllowedModes(target) then Ok(target) else Err(PidNotAllowed))
  {
    if |vals| < 2 then Err(IndexOutOfBounds) else P.ParseHex(Some(vals[1]), mode)
  }

  /**
   * A line other than NO DATA, from its space-separated tokens: the first token must be two
   * characters; 7F marks an error response; otherwise the mode decides whether the second token
   * names the PID (`parsed`) and where the data starts.
   */
  function ClassifyTokens(mode: M.Mode, pid: P.Pid, vals: seq<string>, parsed: Result<P.Pid>): Result<Response>
  {
    if |vals| == 0 then Err(IndexOutOfBounds)
    else if |vals[0]| != 2 then Err(InvalidResponse)
    else if vals[0] == "7F" then Ok(Answer(true, mode, Some(pid), Some(vals)))
    else
      var offset := DataOffset(mode);
      var data := if |vals| > offset then Some(vals[offset..]) else None;
      if offset == 1 then Ok(Answer(false, mode, None, data))
      else match parsed
        case Err(e) => Err(e)
        case Ok(p) => Ok(Answer(false, mode, Some(p), data))
  }

  /** One line of the answer, classified as the loop of ask does. */
  function ClassifyLine(mode: M.Mode, pid: P.Pid, line: string): Result<Response>
  {
    if line == "NO DATA" then Ok(NoData(mode, pid))
    else
      var vals := JavaSplit(line, ' ');
      ClassifyTokens(mode, pid, vals, SecondPid(mode, vals))
  }

  /**
   * The classification of one line: NO DATA exactly for the NO DATA line; an error response,
   * carrying every token, exactly when the first token is 7F; otherwise the tokens after the
   * mode's data offset (null when none remain), with a PID, allowed in the mode, exactly when the
   * mode's answers carry one. A first token that is not two characters long is rejected.
   */
  lemma ClassifyLineSpec(mode: M.Mode, pid: P.Pid, line: string)
    ensures var vals := JavaSplit(line, ' ');
      match ClassifyLine(mode, pid, line)
      case Ok(NoData(m, requested)) => line == "NO DATA" && m == mode && requested == pid
      case Ok(Answer(isError, m, p, data)) =>
        && line != "NO DATA"
        && m == mode
        && (isError <==> |vals| > 0 && vals[0] == "7F")
        && (isError ==> p == Some(pid) && data == Some(vals))
        && (!isError ==>
              && data == (if |vals| > DataOffset(mode) then Some(vals[DataOffset(mode)..]) else None)
              && (DataOffset(mode) == 1 <==> p.None?)
              && (p.Some? ==> mode in P.AllowedModes(p.value))
              && (DataOffset(mode) == 2 ==> SecondPid(mode, vals).Ok? && p == Some(SecondPid(mode, vals).value)))
      case Err(e) =>
        && line != "NO DATA"
        && !(|vals| > 0 && vals[0] == "7F")
        && (e == InvalidResponse <==> |vals| > 0 && |vals[0]| != 2)
        && (e == InvalidResponse || (|vals| == 0 && e == IndexOutOfBounds)
            || (DataOffset(mode) == 2 && SecondPid(mode, vals) == Err(e)))
    ensures var vals := JavaSplit(line, ' ');
      (line != "NO DATA" && |vals| > 0 && |vals[0]| == 2 && vals[0] != "7F"
       && (DataOffset(mode) == 1 || SecondPid(mode, vals).Ok?)) ==> ClassifyLine(mode, pid, line).Ok?
  {
    if line != "NO DATA" {
      var vals := JavaSplit(line, ' ');
      ClassifyTokensSpec(mode, pid, vals, SecondPid(mode, vals));
    }
  }

  /** ClassifyLineSpec for the tokens of a line other than NO DATA, whatever its PID parses to. */
  lemma ClassifyTokensSpec(mode: M.Mode, pid: P.Pid, vals: seq<string>, parsed: Result<P.Pid>)
    requires parsed.Ok? ==> mode in P.AllowedModes(parsed.value)
    requires parsed.Err? ==> parsed.error != InvalidResponse
    ensures match ClassifyTokens(mode, pid, vals, parsed)
      case Ok(NoData(_, _)) => false
      case Ok(Answer(isError, m, p, data)) =>
        && m == mode
        && (isError <==> |vals| > 0 && vals[0] == "7F")
        && (isError ==> p == Some(pid) && data == Some(vals))
        && (!isError ==>
              && data == (if |vals| > DataOffset(mode) then Some(vals[DataOffset(mode)..]) else None)
              && (DataOffset(mode) == 1 <==> p.None?)
              && (p.Some? ==> mode in P.AllowedModes(p.value))
              && (DataOffset(mode) == 2 ==> parsed.Ok? && p == Some(parsed.value)))
      case Err(e) =>
        && !(|vals| > 0 && vals[0] == "7F")
        && (e == InvalidResponse <==> |vals| > 0 && |vals[0]| != 2)
        && (e == InvalidResponse || (|vals| == 0 && e == IndexOutOfBounds)
            || (DataOffset(mode) == 2 && parsed == Err(e)))
    ensures |vals| > 0 && |vals[0]| == 2 && vals[0] != "7F" && (DataOffset(mode) == 1 || parsed.Ok?) ==>
      ClassifyTokens(mode, pid, vals, parsed).Ok?
  {
  }

  /**
   * The loop of ask over the classified lines: responses in line order, up to and including the
   * first NO DATA or error response; the first line that cannot be classified aborts the request.
   */
  function Collect(results: seq<Result<Response>>): Result<seq<Response>> {
    if |results| == 0 then Ok([])
    else match results[0]
      case Err(e) => Err(e)
      case Ok(response) =>
        if Stops(response) then Ok([response])
        else match Collect(results[1..])
          case Err(e) => Err(e)
          case Ok(rest) => Ok([response] + rest)
  }

  /**
   * What the loop of ask keeps: at most one response per result, each the value of its result,
   * only the last one stopping, and an early end only at a stopping response; an error is the
   * error of some result.
   */
  lemma {:induction false} CollectSpec(results: seq<Result<Response>>)
    ensures var r := Collect(results);
      (r.Ok? ==> |r.value| <= |results|)
      && (r.Ok? ==> forall k :: 0 <= k < |r.value| ==> results[k] == Ok(r.value[k]))
      && (r.Ok? ==> forall k :: 0 <= k < |r.value| - 1 ==> !Stops(r.value[k]))
      && (r.Ok? && |r.value| < |results| ==> |r.value| > 0 && Stops(r.value[|r.value| - 1]))
      && (r.Err? ==> exists k :: 0 <= k < |results| && results[k] == Err(r.error))
    decreases |results|
  {
    if |results| > 0 && results[0].Ok? && !Stops(results[0].value) {
      var tail := results[1..];
      CollectSpec(tail);
      assert forall k :: 0 <= k < |tail| ==> tail[k] == results[k + 1];
      match Collect(tail)
      case Err(e) =>
        var k :| 0 <= k < |tail| && tail[k] == Err(e);
        assert results[k + 1] == Err(e);
      case Ok(rest) =>
        var all := [results[0].value] + rest;
        assert forall k :: 0 < k < |all| ==> all[k] == rest[k - 1];
    }
  }
  /** Every line classified on its own. */
  function ClassifyEach(mode: M.Mode, pid: P.Pid, lines: seq<string>): (rs: seq<Result<Response>>)
    ensures |rs| == |lines|
  {
    seq(|lines|, k requires 0 <= k < |lines| => ClassifyLine(mode, pid, lines[k]))
  }

  /** ask's answer to the lines read. */
  function Classify(mode: M.Mode, pid: P.Pid, lines: seq<string>): Result<seq<Response>> {
    Collect(ClassifyEach(mode, pid, lines))
  }

  /**
   * ask yields at most one response per line, in line order, each the classification of its line;
   * only the last may be NO DATA or 0x7F, and lines are left unread only after such a response.
   */
  lemma ClassifySpec(mode: M.Mode, pid: P.Pid, lines: seq<string>)
    ensures var r := Classify(mode, pid, lines);
      (r.Ok? ==> |r.value| <= |lines|)
      && (r.Ok? ==> forall k :: 0 <= k < |r.value| ==> ClassifyLine(mode, pid, lines[k]) == Ok(r.value[k]))
      && (r.Ok? ==> forall k :: 0 <= k < |r.value| - 1 ==> !Stops(r.value[k]))
      && (r.Ok? && |r.value| < |lines| ==> |r.value| > 0 && Stops(r.value[|r.value| - 1]))
      && (r.Err? ==> exists k :: 0 <= k < |lines| && ClassifyLine(mode, pid, lines[k]) == Err(r.error))
  {
    var results := ClassifyEach(mode, pid, lines);
    CollectSpec(results);
    assert forall k :: 0 <= k < |lines| ==> results[k] == ClassifyLine(mode, pid, lines[k]);
  }

  /** Without a stopping response, every result gives exactly one response. */
  lemma {:induction false} CollectEvery(results: seq<Result<Response>>)
    requires forall k :: 0 <= k < |results| ==> results[k].Ok? && !Stops(results[k].value)
    ensures Collect(results).Ok? && |Collect(results).value| == |results|
    decreases |results|
  {
    if |results| > 0 {
      assert forall k :: 0 <= k < |results| - 1 ==> results[1..][k] == results[k + 1];
      CollectEvery(results[1..]);
    }
  }

  /** Without NO DATA or 0x7F lines, every line gives exactly one response. */
  lemma ClassifyEveryLine(mode: M.Mode, pid: P.Pid, lines: seq<string>)
    requires forall k :: 0 <= k < |lines| ==>
      ClassifyLine(mode, pid, lines[k]).Ok? && !Stops(ClassifyLine(mode, pid, lines[k]).value)
    ensures Classify(mode, pid, lines).Ok?
    ensures |Classify(mode, pid, lines).value| == |lines|
  {
    var rs := ClassifyEach(mode, pid, lines);
    assert forall k :: 0 <= k < |rs| ==> rs[k].Ok? && !Stops(rs[k].value) by {
      forall k | 0 <= k < |rs|
        ensures rs[k].Ok? && !Stops(rs[k].value)
      {
        assert rs[k] == ClassifyLine(mode, pid, lines[k]);
      }
    }
    CollectEvery(rs);
  }

  /** A stopping response ends the loop: what follows it is never looked at. */
  lemma {:induction false} CollectStops(results: seq<Result<Response>>, n: nat)
    requires n < |results|
    requires forall k :: 0 <= k < n ==> results[k].Ok? && !Stops(results[k].value)
    requires results[n].Ok? && Stops(results[n].value)
    ensures Collect(results).Ok? && |Collect(results).value| == n + 1
    decreases n
  {
    if n > 0 {
      assert forall k :: 0 <= k < n - 1 ==> results[1..][k] == results[k + 1];
      CollectStops(results[1..], n - 1);
    }
  }

  /** A NO DATA line ends the answer: later lines are never classified, whatever they hold. */
  lemma NoDataStops(mode: M.Mode, pid: P.Pid, before: seq<string>, after: seq<string>)
    requires forall k :: 0 <= k < |before| ==>
      ClassifyLine(mode, pid, before[k]).Ok? && !Stops(ClassifyLine(mode, pid, before[k]).value)
    ensures Classify(mode, pid, before + ["NO DATA"] + after).Ok?
    ensures var rs := Classify(mode, pid, before + ["NO DATA"] + after).value;
      |rs| == |before| + 1 && rs[|before|] == NoData(mode, pid)
  {
    var lines := before + ["NO DATA"] + after;
    var results := ClassifyEach(mode, pid, lines);
    forall k | 0 <= k < |before|
      ensures results[k].Ok? && !Stops(results[k].value)
    {
      assert lines[k] == before[k];
    }
    assert lines[|before|] == "NO DATA";
    assert results[|before|] == Ok(NoData(mode, pid));
    CollectStops(results, |before|);
    CollectSpec(results);
  }

  /** askOneLine: more than one response is an error; none at all fails on get(0). */
  function OneLine(responses: Result<seq<Response>>): (r: Result<Response>)
    ensures r.Ok? <==> responses.Ok? && |responses.value| == 1
    ensures r.Ok? ==> r.value == responses.value[0]
    ensures responses.Ok? && |responses.value| > 1 ==> r == Err(TooManyResponses)
    ensures responses.Ok? && |responses.value| == 0 ==> r == Err(IndexOutOfBounds)
    ensures responses.Err? ==> r == Err(responses.error)
  {
    match responses
    case Err(e) => Err(e)
    case Ok(rs) =>
      if |rs| > 1 then Err(TooManyResponses)
      else if |rs| == 0 then Err(IndexOutOfBounds)
      else Ok(rs[0])
  }

  /** What ask returns when the adapter's queued chunks are the answer. */
  function Exchange(chunks: seq<string>, maxPolls: nat, mode: M.Mode, pid: P.Pid): Result<seq<Response>> {
    match S.Receive(chunks, maxPolls)
    case Err(e) => Err(e)
    case Ok(lines) => Classify(mode, pid, lines)
  }

  /** getMode: freeze-frame data or current data. */
  function GetMode(freezed: bool): (m: M.Mode)
    ensures m == M.FreezeFrameData <==> freezed
    ensures m == M.CurrentData <==> !freezed
  {
    if freezed then M.FreezeFrameData else M.CurrentData
  }

  // ---------------------------------------------------------------- value decoders

  /** getData()[i]: a null data array or a short one fails. */
  function DataToken(resp: Response, i: nat): (r: Result<string>)
    ensures Data(resp).None? ==> r == Err(NullPointer)
    ensures Data(resp).Some? ==> (r.Ok? <==> i < |Data(resp).value|)
    ensures r.Ok? ==> r.value == Data(resp).value[i]
    ensures r.Err? ==> r.error == NullPointer || r.error == IndexOutOfBounds
  {
    match Data(resp)
    case None => Err(NullPointer)
    case Some(d) => if i < |d| then Ok(d[i]) else Err(IndexOutOfBounds)
  }

  /** Integer.parseInt(getData()[i], 16). */
  function DataValue(resp: Response, i: nat): (r: Result<int>)
    ensures r.Ok? <==> DataToken(resp, i).Ok? && ParseHexInt(DataToken(resp, i).value).Ok?
    ensures r.Ok? ==> r == ParseHexInt(DataToken(resp, i).value)
    ensures r.Ok? ==> MinInt <= r.value <= MaxInt
  {
    match DataToken(resp, i)
    case Err(e) => Err(e)
    case Ok(t) => ParseHexInt(t)
  }

  /** A data byte: the i-th token is a byte in hex. */
  predicate ByteAt(resp: Response, i: nat) {
    DataToken(resp, i).Ok? && IsByteToken(DataToken(resp, i).value)
  }

  /** The single-byte temperatures: A - 40 degrees Celsius; an error response gives null. */
  function Temperature(resp: Response): (r: Result<Option<int>>)
    ensures IsError(resp) ==> r == Ok(None)
    ensures !IsError(resp) && ByteAt(resp, 0) ==>
      r.Ok? && r.value.Some? && -40 <= r.value.value <= 215
      && r.value.value + 40 == ParseHexInt(DataToken(resp, 0).value).value
    ensures !IsError(resp) ==> (r.Err? <==> DataValue(resp, 0).Err?)
  {
    if IsError(resp) then Ok(None)
    else match DataValue(resp, 0)
      case Err(e) => Err(e)
      case Ok(a) => Ok(Some(Int32(a - 40)))
  }

  /** The two-byte distances: A * 256 + B kilometres; an error response gives null. */
  function Distance(resp: Response): (r: Result<Option<int>>)
    ensures IsError(resp) ==> r == Ok(None)
    ensures !IsError(resp) && ByteAt(resp, 0) && ByteAt(resp, 1) ==>
      r.Ok? && r.value.Some? && 0 <= r.value.value <= 65535
      && r.value.value / 256 == ParseHexInt(DataToken(resp, 0).value).value
      && r.value.value % 256 == ParseHexInt(DataToken(resp, 1).value).value
    ensures !IsError(resp) && DataValue(resp, 0).Err? ==> r == Err(DataValue(resp, 0).error)
    ensures !IsError(resp) && DataValue(resp, 0).Ok? ==>
      (r.Err? <==> DataValue(resp, 1).Err?) && (r.Err? ==> r.error == DataValue(resp, 1).error)
  {
    if IsError(resp) then Ok(None)
    else match DataValue(resp, 0)
      case Err(e) => Err(e)
      case Ok(a) =>
        match DataValue(resp, 1)
        case Err(e) => Err(e)
        case Ok(b) =>
          assert 0 <= b < 256 ==> (a * 256 + b) / 256 == a && (a * 256 + b) % 256 == b by {
            if 0 <= b < 256 {
              DivModUnique(a * 256 + b, 256, a, b);
            }
          }
          Ok(Some(Int32(a * 256 + b)))
  }

  /** A parsed constant as a non-null result; a parse failure is passed on. */
  function Present<T>(parsed: Result<T>): Result<Option<T>> {
    match parsed
    case Err(e) => Err(e)
    case Ok(v) => Ok(Some(v))
  }

  /** getFuelStatus's decoding: the first data byte through FuelStatus.parseHex. */
  function FuelStatusOf(resp: Response): (r: Result<Option<FS.FuelStatus>>)
    ensures IsError(resp) ==> r == Ok(None)
    ensures r.Ok? && r.value.Some? ==> DataToken(resp, 0).Ok? && ParseHexInt(DataToken(resp, 0).value) == Ok(FS.Code(r.value.value))
    ensures !IsError(resp) ==> r.Ok? ==> r.value.Some?
    ensures !IsError(resp) && DataValue(resp, 0).Err? ==> r == Err(DataValue(resp, 0).error)
    ensures !IsError(resp) && DataValue(resp, 0).Ok? && (0 <= DataValue(resp, 0).value <= 7) ==>
      r.Ok? && r.value.Some? && FS.Code(r.value.value) == DataValue(resp, 0).value
    ensures !IsError(resp) && DataValue(resp, 0).Ok? && !(0 <= DataValue(resp, 0).value <= 7) ==>
      r == Err(UnknownStatus)
  {
    if IsError(resp) then Ok(None)
    else match DataToken(resp, 0)
      case Err(e) => Err(e)
      case Ok(t) =>
        if ParseHexInt(t).Ok? then
          FS.ParseHexRange(t, ParseHexInt(t).value);
          Present(FS.ParseHex(Some(t)))
        else Present(FS.ParseHex(Some(t)))
  }

  /** getEcuCompatibility's decoding: the first data byte through EcuCompatibility.parseHex. */
  function EcuCompatibilityOf(resp: Response): (r: Result<Option<EC.EcuCompatibility>>)
    ensures IsError(resp) ==> r == Ok(None)
    ensures r.Ok? && r.value.Some? ==> DataToken(resp, 0).Ok? && ParseHexInt(DataToken(resp, 0).value) == Ok(EC.Code(r.value.value))
    ensures !IsError(resp) ==> r.Ok? ==> r.value.Some?
    ensures !IsError(resp) && DataValue(resp, 0).Err? ==> r == Err(DataValue(resp, 0).error)
    ensures !IsError(resp) && DataValue(resp, 0).Ok? && (1 <= DataValue(resp, 0).value <= 6 || 8 <= DataValue(resp, 0).value <= 13) ==>
      r.Ok? && r.value.Some? && EC.Code(r.value.value) == DataValue(resp, 0).value
    ensures !IsError(resp) && DataValue(resp, 0).Ok? && !(1 <= DataValue(resp, 0).value <= 6 || 8 <= DataValue(resp, 0).value <= 13) ==>
      r == Err(UnknownStatus)
  {
    if IsError(resp) then Ok(None)
    else match DataToken(resp, 0)
      case Err(e) => Err(e)
      case Ok(t) =>
        if ParseHexInt(t).Ok? then
          EC.ParseHexRange(t, ParseHexInt(t).value);
          Present(EC.ParseHex(Some(t)))
        else Present(EC.ParseHex(Some(t)))
  }

  /** getSecondaryAirStatus's decoding: the first data byte through AirStatus.parseHex. */
  function AirStatusOf(resp: Response): (r: Result<Option<AS.AirStatus>>)
    ensures IsError(resp) ==> r == Ok(None)
    ensures r.Ok? && r.value.Some? ==> DataToken(resp, 0).Ok? && ParseHexInt(DataToken(resp, 0).value) == Ok(AS.Code(r.value.value))
    ensures !IsError(resp) ==> r.Ok? ==> r.value.Some?
    ensures !IsError(resp) && DataValue(resp, 0).Err? ==> r == Err(DataValue(resp, 0).error)
    ensures !IsError(resp) && DataValue(resp, 0).Ok? && (0 <= DataValue(resp, 0).value <= 2) ==>
      r.Ok? && r.value.Some? && AS.Code(r.value.value) == DataValue(resp, 0).value
    ensures !IsError(resp) && DataValue(resp, 0).Ok? && !(0 <= DataValue(resp, 0).value <= 2) ==>
      r == Err(UnknownStatus)
  {
    if IsError(resp) then Ok(None)
    else match DataToken(resp, 0)
      case Err(e) => Err(e)
      case Ok(t) =>
        if ParseHexInt(t).Ok? then
          AS.ParseHexRange(t, ParseHexInt(t).value);
          Present(AS.ParseHex(Some(t)))
        else Present(AS.ParseHex(Some(t)))
  }

  /** getSupportedPIDs's decoding: all data bytes as one bitmap, 8 bits per byte. */
  function SupportedPidsOf(resp: Response): (r: Result<Option<seq<bool>>>)
    ensures IsError(resp) ==> r == Ok(None)
    ensures !IsError(resp) && Data(resp).None? ==> r == Err(NullPointer)
    ensures !IsError(resp) && Data(resp).Some? ==>
      (r.Ok? <==> AllByteTokens(Data(resp).value))
    ensures r.Ok? && r.value.Some? ==>
      |r.value.value| == 8 * |Data(resp).value| && r.value.value == HexBits(Data(resp).value)
  {
    if IsError(resp) then Ok(None)
    else match Data(resp)
      case None => Err(NullPointer)
      case Some(d) =>
        match Convert(d)
        case Err(e) => Err(e)
        case Ok(bits) => Ok(Some(bits))
  }

  /** convertHexToBooleanArray(getData()[i]): the bits of one data token. */
  function TokenBits(resp: Response, i: nat): (r: Result<seq<bool>>)
    ensures r.Ok? ==> |r.value| == 8
    ensures r.Ok? <==> ByteAt(resp, i)
    ensures r.Ok? ==> r.value == ByteBits(ParseHexInt(DataToken(resp, i).value).value)
  {
    match DataToken(resp, i)
    case Err(e) => Err(e)
    case Ok(t) =>
      ConvertOne(t);
      Convert([t])
  }

  /** The MonitorStatus fields set from the bits of bytes A and B (index 0 is bit 7). */
  function MonitorFields(a: seq<bool>, b: seq<bool>): MS.Fields
    requires |a| == 8 && |b| == 8
  {
    MS.Fields(
      mil := a[0],
      emissionRelatedDtcs := Int32(BigEndian(a[1..8])),
      compressionIgnited := b[4],
      misfireAvailable := b[7],
      misfireIncomplete := b[3],
      fuelAvailable := b[6],
      fuelIncomplete := b[2],
      componentsAvailable := b[5],
      componentsIncomplete := b[1],
      reservedBitB7 := b[0])
  }

  /** getMonitorStatus's decoding: bytes A to D are converted (C and D unused), then A and B read. */
  function MonitorStatusOf(resp: Response): (r: Result<Option<MS.Fields>>)
    ensures IsError(resp) ==> r == Ok(None)
    ensures !IsError(resp) ==>
      (r.Ok? <==> ByteAt(resp, 0) && ByteAt(resp, 1) && ByteAt(resp, 2) && ByteAt(resp, 3))
    ensures r.Ok? && r.value.Some? ==>
      r.value.value == MonitorFields(TokenBits(resp, 0).value, TokenBits(resp, 1).value)
  {
    if IsError(resp) then Ok(None)
    else match TokenBits(resp, 0)
      case Err(e) => Err(e)
      case Ok(a) =>
        match TokenBits(resp, 1)
        case Err(e) => Err(e)
        case Ok(b) =>
          match TokenBits(resp, 2)
          case Err(e) => Err(e)
          case Ok(_) =>
            match TokenBits(resp, 3)
            case Err(e) => Err(e)
            case Ok(_) => Ok(Some(MonitorFields(a, b)))
  }

  /** Bit i of n is the low bit of n shifted right by i. */
  lemma {:induction false} BitShr(n: nat, i: nat)
    ensures Bit(n, i) == (Shr(n, i) % 2 == 1)
    decreases i
  {
    if i > 0 {
      BitShr(n / 2, i - 1);
    }
  }

  /** Byte A: bit 7 is the MIL, bits 6-0 the number of emission-related trouble codes. */
  lemma MilAndCount(x: nat)
    requires x < 256
    ensures ByteBits(x)[0] == (x >= 128)
    ensures Int32(BigEndian(ByteBits(x)[1..8])) == x % 128
  {
    MilBit(x);
    CountBits(x);
  }

  /** Bit 7 of a byte is set exactly from 128 on. */
  lemma MilBit(x: nat)
    requires x < 256
    ensures ByteBits(x)[0] == (x >= 128)
  {
    BitsAt(x, 8, 0);
    BitShr(x, 7);
    ShrDiv(x, 7);
    assert Pow2(7) == 128;
  }

  /** Bits 6-0 of a byte hold x % 128. */
  lemma CountBits(x: nat)
    requires x < 256
    ensures Int32(BigEndian(ByteBits(x)[1..8])) == x % 128
  {
    BitsSplit(x, 1, 7);
    assert ByteBits(x)[1..8] == Bits(x, 7);
    BigEndianBitsMod(x, 7);
    assert Pow2(7) == 128;
    ToIntegerExact(Bits(x, 7));
  }

  /** Byte B, most significant bit first: element j is bit 7 - j. */
  lemma ByteOrder(y: nat)
    ensures ByteBits(y)[0] == Bit(y, 7) && ByteBits(y)[1] == Bit(y, 6)
    ensures ByteBits(y)[2] == Bit(y, 5) && ByteBits(y)[3] == Bit(y, 4)
    ensures ByteBits(y)[4] == Bit(y, 3) && ByteBits(y)[5] == Bit(y, 2)
    ensures ByteBits(y)[6] == Bit(y, 1) && ByteBits(y)[7] == Bit(y, 0)
  {
    BitsAt(y, 8, 0);
    BitsAt(y, 8, 1);
    BitsAt(y, 8, 2);
    BitsAt(y, 8, 3);
    BitsAt(y, 8, 4);
    BitsAt(y, 8, 5);
    BitsAt(y, 8, 6);
    BitsAt(y, 8, 7);
  }

  /**
   * Service $01 PID $01 as stored: MIL is bit A7, the DTC count is A6..A0, and the tests of
   * byte B are misfire (B0, B4), fuel system (B1, B5), components (B2, B6), ignition B3, B7.
   */
  lemma MonitorFieldsOfBytes(x: nat, y: nat)
    requires x < 256 && y < 256
    ensures var f := MonitorFields(ByteBits(x), ByteBits(y));
      f.mil == (x >= 128) && f.emissionRelatedDtcs == x % 128
      && f.misfireAvailable == Bit(y, 0) && f.misfireIncomplete == Bit(y, 4)
      && f.fuelAvailable == Bit(y, 1) && f.fuelIncomplete == Bit(y, 5)
      && f.componentsAvailable == Bit(y, 2) && f.componentsIncomplete == Bit(y, 6)
      && f.compressionIgnited == Bit(y, 3) && f.reservedBitB7 == Bit(y, 7)
  {
    MilAndCount(x);
    ByteOrder(y);
  }

  // ---------------------------------------------------------------- the error report

  /** Fault number i of a data line: bytes 2i and 2i + 1, each converted, then decoded. */
  function Slot(d: seq<string>, i: nat): (r: Result<F.Fault>)
    ensures r.Ok? <==> 2 * i + 1 < |d| && IsByteToken(d[2 * i]) && IsByteToken(d[2 * i + 1])
    ensures r.Ok? ==> F.Decode(ByteBits(TokenValue(d[2 * i])), ByteBits(TokenValue(d[2 * i + 1]))) == r
  {
    if 2 * i >= |d| then Err(IndexOutOfBounds)
    else
      ConvertOne(d[2 * i]);
      match Convert([d[2 * i]])
      case Err(e) => Err(e)
      case Ok(a) =>
        if 2 * i + 1 >= |d| then Err(IndexOutOfBounds)
        else
          ConvertOne(d[2 * i + 1]);
          match Convert([d[2 * i + 1]])
          case Err(e) => Err(e)
          case Ok(b) => F.Decode(a, b)
  }

  /** The fault, unless it is the empty code P0000. */
  function Kept(f: F.Fault): (r: seq<F.Fault>)
    ensures r == [] <==> f.code == "P0000"
    ensures r != [] ==> r == [f]
  {
    if f.code == "P0000" then [] else [f]
  }

  /** Faults reported by no fault left out, and each code is five characters. */
  predicate Reportable(faults: seq<F.Fault>) {
    forall k :: 0 <= k < |faults| ==> faults[k].code != "P0000" && |faults[k].code| == 5
  }

  /** Three decoded slots, in order, P0000 left out; the first failing slot aborts. */
  function Combine(f1: Result<F.Fault>, f2: Result<F.Fault>, f3: Result<F.Fault>): (r: Result<seq<F.Fault>>)
    requires f1.Ok? ==> |f1.value.code| == 5
    requires f2.Ok? ==> |f2.value.code| == 5
    requires f3.Ok? ==> |f3.value.code| == 5
    ensures r.Ok? <==> f1.Ok? && f2.Ok? && f3.Ok?
    ensures r.Ok? ==> Reportable(r.value) && r.value == Kept(f1.value) + Kept(f2.value) + Kept(f3.value)
    ensures r.Err? ==> r.error == (if f1.Err? then f1.error else if f2.Err? then f2.error else f3.error)
  {
    match f1
    case Err(e) => Err(e)
    case Ok(a) =>
      match f2
      case Err(e) => Err(e)
      case Ok(b) =>
        match f3
        case Err(e) => Err(e)
        case Ok(c) => Ok(Kept(a) + Kept(b) + Kept(c))
  }

  /** The three fault slots of one response, in order, P0000 left out. */
  function ResponseFaults(resp: Response): (r: Result<seq<F.Fault>>)
    ensures r.Ok? ==> Reportable(r.value) && |r.value| <= 3
    ensures r.Ok? ==> Data(resp).Some? && |Data(resp).value| >= 6
  {
    match Data(resp)
    case None => Err(NullPointer)
    case Some(d) => Combine(Slot(d, 0), Slot(d, 1), Slot(d, 2))
  }

  /** The faults of the responses, in order; the first failing response aborts. */
  function Gather(results: seq<Result<seq<F.Fault>>>): Result<seq<F.Fault>> {
    if |results| == 0 then Ok([])
    else
      match Gather(results[..|results| - 1])
      case Err(e) => Err(e)
      case Ok(fs) =>
        match results[|results| - 1]
        case Err(e) => Err(e)
        case Ok(gs) => Ok(fs + gs)
  }

  /** Gather of one more result: the faults so far, then the new ones, unless something failed. */
  lemma GatherSnoc(results: seq<Result<seq<F.Fault>>>, last: Result<seq<F.Fault>>)
    ensures Gather(results + [last]) ==
      match Gather(results)
      case Err(e) => Err(e)
      case Ok(fs) => (match last case Err(e) => Err(e) case Ok(gs) => Ok(fs + gs))
  {
    assert (results + [last])[..|results|] == results;
  }

  /**
   * Gather succeeds exactly when every result does, keeps only reportable faults when each result
   * holds only such, and otherwise fails with the error of the first failing result.
   */
  lemma {:induction false} GatherSpec(results: seq<Result<seq<F.Fault>>>)
    ensures Gather(results).Ok? <==> forall k :: 0 <= k < |results| ==> results[k].Ok?
    ensures (forall k :: 0 <= k < |results| && results[k].Ok? ==> Reportable(results[k].value)) ==>
      Gather(results).Ok? ==> Reportable(Gather(results).value)
    ensures Gather(results).Err? ==>
      exists k :: (0 <= k < |results| && results[k] == Err(Gather(results).error)
                   && forall j :: 0 <= j < k ==> results[j].Ok?)
    decreases |results|
  {
    if |results| > 0 {
      var init := results[..|results| - 1];
      GatherSpec(init);
      assert forall k :: 0 <= k < |init| ==> init[k] == results[k];
      var last := results[|results| - 1];
      if (forall k :: 0 <= k < |results| && results[k].Ok? ==> Reportable(results[k].value))
         && Gather(init).Ok? && last.Ok? {
        assert Reportable(last.value);
        ReportableAppend(Gather(init).value, last.value);
      }
    }
  }

  lemma ReportableAppend(fs: seq<F.Fault>, gs: seq<F.Fault>)
    requires Reportable(fs) && Reportable(gs)
    ensures Reportable(fs + gs)
  {
    forall k | 0 <= k < |fs + gs|
      ensures (fs + gs)[k].code != "P0000" && |(fs + gs)[k].code| == 5
    {
      if k >= |fs| {
        assert (fs + gs)[k] == gs[k - |fs|];
      }
    }
  }

  /** The faults of every response on its own. */
  function FaultsEach(responses: seq<Response>): (rs: seq<Result<seq<F.Fault>>>)
    ensures |rs| == |responses|
  {
    seq(|responses|, k requires 0 <= k < |responses| => ResponseFaults(responses[k]))
  }

  /** Every response that decodes reports only real faults. */
  lemma FaultsEachReportable(responses: seq<Response>)
    ensures var rs := FaultsEach(responses);
      forall k :: 0 <= k < |rs| && rs[k].Ok? ==> Reportable(rs[k].value)
  {
  }

  /** The loop of getErrorReport: all faults of all responses, the first failing one aborting. */
  function AllFaults(responses: seq<Response>): (r: Result<seq<F.Fault>>)
    ensures r.Ok? ==> Reportable(r.value)
  {
    FaultsEachReportable(responses);
    GatherSpec(FaultsEach(responses));
    Gather(FaultsEach(responses))
  }

  /** The report decodes exactly when every response decodes on its own. */
  lemma AllFaultsOk(responses: seq<Response>)
    ensures AllFaults(responses).Ok? <==> forall k :: 0 <= k < |responses| ==> ResponseFaults(responses[k]).Ok?
  {
    var rs := FaultsEach(responses);
    GatherSpec(rs);
    assert AllFaults(responses) == Gather(rs);
    forall k | 0 <= k < |responses|
      ensures rs[k] == ResponseFaults(responses[k])
    {
    }
  }

  /**
   * getErrorReport's decoding: no response gives no faults, an error first response gives null,
   * a NO DATA first response gives no faults, and otherwise every response gives its faults.
   */
  function ErrorReport(responses: seq<Response>): (r: Result<Option<seq<F.Fault>>>)
    ensures |responses| == 0 ==> r == Ok(Some([]))
    ensures |responses| > 0 && IsError(responses[0]) ==> r == Ok(None)
    ensures |responses| > 0 && responses[0].NoData? ==> r == Ok(Some([]))
    ensures r.Ok? && r.value.Some? ==> Reportable(r.value.value)
  {
    if |responses| == 0 then Ok(Some([]))
    else if IsError(responses[0]) then Ok(None)
    else if responses[0].NoData? then Ok(Some([]))
    else match AllFaults(responses)
      case Err(e) => Err(e)
      case Ok(fs) => Ok(Some(fs))
  }

  /** Two zero bytes make the empty code P0000. */
  lemma ZeroSlot(d: seq<string>, i: nat)
    requires 2 * i + 1 < |d| && d[2 * i] == "00" && d[2 * i + 1] == "00"
    ensures Slot(d, i) == Ok(F.Fault("P0000"))
  {
    Hex2Digits(0);
    assert HexChar(0) == '0';
    assert ParseHexInt("00") == Ok(0);
    F.DecodeBytes(0, 0);
    assert "PCBU"[0] == 'P';
    assert ["PCBU"[0], HexChar(0), HexChar(0), HexChar(0), HexChar(0)] == "P0000";
  }

  /** Data of six zero bytes reports no fault: each slot decodes to the left-out P0000. */
  lemma ZeroDataNoFaults(resp: Response, d: seq<string>)
    requires Data(resp) == Some(d) && |d| == 6
    requires forall t :: 0 <= t < 6 ==> d[t] == "00"
    ensures ResponseFaults(resp) == Ok([])
  {
    ZeroSlot(d, 0);
    ZeroSlot(d, 1);
    ZeroSlot(d, 2);
  }

  // ---------------------------------------------------------------- PID selection

  /** getFuelTrimPercent's PID: short or long term trim of bank 1 or 2. */
  function FuelTrimPid(longTerm: bool, bank: int): (r: Result<P.Pid>)
    ensures r.Err? <==> bank != 1 && bank != 2
    ensures r.Err? ==> r.error == InvalidBank
    ensures r.Ok? ==> P.Code(r.value) == 6 + (if longTerm then 1 else 0) + 2 * (bank - 1)
  {
    if bank == 1 then Ok(if longTerm then P.FuelTrimPercentLongBank1 else P.FuelTrimPercentShortBank1)
    else if bank == 2 then Ok(if longTerm then P.FuelTrimPercentLongBank2 else P.FuelTrimPercentShortBank2)
    else Err(InvalidBank)
  }

  /** getCatalystTemperature's PID: the sensor is checked before the bank. */
  function CatalystPid(bank: int, sensor: int): (r: Result<P.Pid>)
    ensures sensor != 1 && sensor != 2 ==> r == Err(InvalidSensor)
    ensures (sensor == 1 || sensor == 2) && bank != 1 && bank != 2 ==> r == Err(InvalidBank)
    ensures r.Ok? ==> P.Code(r.value) == 0x3c + (sensor - 1) * 2 + (bank - 1)
  {
    if sensor != 1 && sensor != 2 then Err(InvalidSensor)
    else if bank == 1 then Ok(if sensor == 1 then P.CatalystTemperatureBank1Sensor1 else P.CatalystTemperatureBank1Sensor2)
    else if bank == 2 then Ok(if sensor == 1 then P.CatalystTemperatureBank2Sensor1 else P.CatalystTemperatureBank2Sensor2)
    else Err(InvalidBank)
  }

  /** The sensors read by the temperature getters. */
  datatype Thermometer =
    | EngineCoolant | EngineOil | IntakeAir | IntakeAirSensor | ExhaustGasRecirculation
    | AmbientAir | ManifoldSurface

  function ThermometerPid(t: Thermometer): P.Pid {
    match t
    case EngineCoolant => P.EngineCoolantTemperature
    case EngineOil => P.EngineOilTemperature
    case IntakeAir => P.IntakeAirTemperature
    case IntakeAirSensor => P.IntakeAirTemperatureSensor
    case ExhaustGasRecirculation => P.ExhaustGasRecirculationTemperature
    case AmbientAir => P.AmbientAirTemperature
    case ManifoldSurface => P.ManifoldSurfaceTemperature
  }

  /** The counters read by the distance getters. */
  datatype Odometer = WithMalfunction | SinceCodesCleared

  function OdometerPid(o: Odometer): P.Pid {
    match o
    case WithMalfunction => P.DistanceWithMalfunction
    case SinceCodesCleared => P.DistanceFromCodesCleared
  }

  /**
   * Every getter asks for a PID in a mode the PID allows, so a well-formed answer echoing that PID
   * is accepted by PID.parseHex's validity check.
   */
  lemma GettersAskAllowedPids(freezed: bool, t: Thermometer, o: Odometer, longTerm: bool, bank: int, sensor: int)
    ensures M.CurrentData in P.AllowedModes(P.PidsSupported)
    ensures M.CurrentData in P.AllowedModes(P.EcuCompatibility)
    ensures M.CurrentData in P.AllowedModes(P.MonitorStatus)
    ensures M.Diagnostic in P.AllowedModes(P.DiagnosticCodes)
    ensures M.ClearTroubleCodes in P.AllowedModes(P.ClearTroubleCodesPid)
    ensures GetMode(freezed) in P.AllowedModes(P.FuelStatus)
    ensures GetMode(freezed) in P.AllowedModes(P.SecondaryAirStatus)
    ensures GetMode(freezed) in P.AllowedModes(ThermometerPid(t))
    ensures GetMode(freezed) in P.AllowedModes(OdometerPid(o))
    ensures FuelTrimPid(longTerm, bank).Ok? ==> GetMode(freezed) in P.AllowedModes(FuelTrimPid(longTerm, bank).value)
    ensures CatalystPid(bank, sensor).Ok? ==> GetMode(freezed) in P.AllowedModes(CatalystPid(bank, sensor).value)
  {
  }
}
