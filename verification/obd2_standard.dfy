/**
 * The OBD2Standard object: it owns the port, writes each request, reads the answer and runs the
 * loops of ask and getErrorReport. Every method is proved against the functions of module Obd2.
 */
module Obd2Standards {
  import opened Wrappers
  import opened SerialUtils
  import F = Faults
  import M = Modes
  import P = Pids
  import FS = FuelStatuses
  import EC = EcuCompatibilities
  import AS = AirStatuses
  import MS = MonitorStatuses
  import S = Serial
  import opened Obd2

  /** The responses of the lines already handled, put in front of what the remaining lines give. */
  function Prefixed(prefix: seq<Response>, rest: Result<seq<Response>>): Result<seq<Response>> {
    match rest
    case Err(e) => Err(e)
    case Ok(rs) => Ok(prefix + rs)
  }

  lemma PrefixedAppend(a: seq<Response>, b: seq<Response>, rest: Result<seq<Response>>)
    ensures Prefixed(a, Prefixed(b, rest)) == Prefixed(a + b, rest)
    ensures Prefixed([], rest) == rest
  {
    if rest.Ok? {
      assert a + (b + rest.value) == (a + b) + rest.value;
      assert [] + rest.value == rest.value;
    }
  }

  /** One turn of ask's loop: the next result aborts, ends or extends the responses so far. */
  lemma CollectStep(results: seq<Result<Response>>, i: nat, responses: seq<Response>)
    requires i < |results|
    requires Collect(results) == Prefixed(responses, Collect(results[i..]))
    ensures results[i].Err? ==> Collect(results) == Err(results[i].error)
    ensures results[i].Ok? && Stops(results[i].value) ==> Collect(results) == Ok(responses + [results[i].value])
    ensures results[i].Ok? && !Stops(results[i].value) ==>
      Collect(results) == Prefixed(responses + [results[i].value], Collect(results[i + 1..]))
  {
    var rest := results[i..];
    assert rest[0] == results[i];
    assert rest[1..] == results[i + 1..];
    if results[i].Ok? {
      var resp := results[i].value;
      if Stops(resp) {
        assert Collect(rest) == Ok([resp]);
      } else {
        PrefixedAppend(responses, [resp], Collect(results[i + 1..]));
      }
    }
  }

  /** The loop of ask over the lines read: one response per line, returning at NO DATA or 7F. */
  method ClassifyLines(mode: M.Mode, pid: P.Pid, lines: seq<string>) returns (r: Result<seq<Response>>)
    ensures r == Classify(mode, pid, lines)
  {
    ghost var results := ClassifyEach(mode, pid, lines);
    var responses: seq<Response> := [];
    var i := 0;
    assert results[0..] == results;
    PrefixedAppend([], [], Collect(results));
    while i < |lines|
      invariant 0 <= i <= |lines|
      invariant Collect(results) == Prefixed(responses, Collect(results[i..]))
    {
      CollectStep(results, i, responses);
      var line := ClassifyLine(mode, pid, lines[i]);
      assert results[i] == line;
      if line.Err? {
        return Err(line.error);
      }
      if Stops(line.value) {
        return Ok(responses + [line.value]);
      }
      responses := responses + [line.value];
      i := i + 1;
    }
    assert results[i..] == [];
    assert responses + [] == responses;
    r := Ok(responses);
  }

  /** ask's error checks: a successful exchange has at least one response, one per line at most. */
  lemma ExchangeNotEmpty(chunks: seq<string>, maxPolls: nat, mode: M.Mode, pid: P.Pid)
    requires Exchange(chunks, maxPolls, mode, pid).Ok?
    ensures 0 < |Exchange(chunks, maxPolls, mode, pid).value| <= |S.Receive(chunks, maxPolls).value|
    ensures OneLine(Exchange(chunks, maxPolls, mode, pid)) != Err(IndexOutOfBounds)
  {
    S.ReceivedLines(chunks, maxPolls);
    ClassifySpec(mode, pid, S.Receive(chunks, maxPolls).value);
  }

  /** convertHexToBooleanArray(getData()[i]). */
  method ConvertToken(resp: Response, i: nat) returns (r: Result<seq<bool>>)
    ensures r == TokenBits(resp, i)
  {
    match DataToken(resp, i)
    case Err(e) =>
      r := Err(e);
    case Ok(t) =>
      ConvertOne(t);
      r := ConvertHexToBooleanArray([t]);
  }

  /** One fault slot of getErrorReport: data[2i] and data[2i + 1] converted, then decoded. */
  method DecodeSlot(d: seq<string>, i: nat) returns (r: Result<F.Fault>)
    ensures r == Slot(d, i)
  {
    if 2 * i >= |d| {
      return Err(IndexOutOfBounds);
    }
    ConvertOne(d[2 * i]);
    var a := ConvertHexToBooleanArray([d[2 * i]]);
    if a.Err? {
      return Err(a.error);
    }
    if 2 * i + 1 >= |d| {
      return Err(IndexOutOfBounds);
    }
    ConvertOne(d[2 * i + 1]);
    var b := ConvertHexToBooleanArray([d[2 * i + 1]]);
    if b.Err? {
      return Err(b.error);
    }
    r := F.Decode(a.value, b.value);
  }

  /** The body of getErrorReport's loop: the three slots of one response, P0000 left out. */
  method DecodeResponse(resp: Response) returns (r: Result<seq<F.Fault>>)
    ensures r == ResponseFaults(resp)
  {
    if Data(resp).None? {
      return Err(NullPointer);
    }
    var d := Data(resp).value;
    var f1 := DecodeSlot(d, 0);
    if f1.Err? {
      return Err(f1.error);
    }
    var f2 := DecodeSlot(d, 1);
    if f2.Err? {
      return Err(f2.error);
    }
    var f3 := DecodeSlot(d, 2);
    if f3.Err? {
      return Err(f3.error);
    }
    r := Ok(Kept(f1.value) + Kept(f2.value) + Kept(f3.value));
  }

  /** Results that are all Ok up to index i, then an error at i: Gather fails with that error. */
  lemma {:induction false} GatherStops(results: seq<Result<seq<F.Fault>>>, i: nat)
    requires i < |results| && results[i].Err?
    requires forall k :: 0 <= k < i ==> results[k].Ok?
    ensures Gather(results) == Err(results[i].error)
    decreases |results|
  {
    var init := results[..|results| - 1];
    if i < |results| - 1 {
      GatherStops(init, i);
    } else {
      GatherSpec(init);
      assert forall k :: 0 <= k < |init| ==> init[k].Ok?;
    }
  }

  /** One turn of getErrorReport's loop: the next result aborts the report or adds its faults. */
  lemma GatherStep(results: seq<Result<seq<F.Fault>>>, i: nat, faults: seq<F.Fault>)
    requires i < |results|
    requires Gather(results[..i]) == Ok(faults)
    ensures results[i].Err? ==> Gather(results) == Err(results[i].error)
    ensures results[i].Ok? ==> Gather(results[..i + 1]) == Ok(faults + results[i].value)
  {
    GatherSpec(results[..i]);
    assert forall k :: 0 <= k < i ==> results[..i][k] == results[k];
    if results[i].Err? {
      GatherStops(results, i);
    } else {
      assert results[..i + 1] == results[..i] + [results[i]];
      GatherSnoc(results[..i], results[i]);
    }
  }

  /** The loop of getErrorReport over every response. */
  method DecodeAll(responses: seq<Response>) returns (r: Result<seq<F.Fault>>)
    ensures r == AllFaults(responses)
  {
    ghost var results := FaultsEach(responses);
    var faults: seq<F.Fault> := [];
    var i := 0;
    assert results[..0] == [];
    while i < |responses|
      invariant 0 <= i <= |responses|
      invariant Gather(results[..i]) == Ok(faults)
    {
      GatherStep(results, i, faults);
      var found := DecodeResponse(responses[i]);
      assert found == results[i];
      if found.Err? {
        return Err(found.error);
      }
      faults := faults + found.value;
      i := i + 1;
    }
    assert results[..i] == results;
    r := Ok(faults);
  }

  /** The setter calls of getMonitorStatus on a new MonitorStatus, from the bits of bytes A and B. */
  method NewMonitorStatus(a: seq<bool>, b: seq<bool>) returns (status: MS.MonitorStatus)
    requires |a| == 8 && |b| == 8
    ensures fresh(status) && status.State() == MonitorFields(a, b)
  {
    status := new MS.MonitorStatus();
    status.SetMil(a[0]);
    var dtcs := ToInteger(a[1..8]);
    status.SetEmissionRelatedDtcs(dtcs);
    status.SetMissfire(b[7], b[3]);
    status.SetFuel(b[6], b[2]);
    status.SetComponents(b[5], b[1]);
    status.SetIgnition(b[4]);
    status.SetReservedBitB7(b[0]);
  }

  /** getMonitorStatus after the answer: null on an error answer, else bytes A to D converted. */
  method DecodeMonitorStatus(resp: Response) returns (r: Result<MS.MonitorStatus?>)
    ensures var expected := MonitorStatusOf(resp);
      (r.Ok? <==> expected.Ok?)
      && (r.Err? ==> r.error == expected.error)
      && (r.Ok? ==> (r.value == null <==> expected.value.None?))
      && (r.Ok? && r.value != null ==> fresh(r.value) && r.value.State() == expected.value.value)
  {
    if IsError(resp) {
      return Ok(null);
    }
    var a := ConvertToken(resp, 0);
    if a.Err? {
      return Err(a.error);
    }
    var b := ConvertToken(resp, 1);
    if b.Err? {
      return Err(b.error);
    }
    var c := ConvertToken(resp, 2);
    if c.Err? {
      return Err(c.error);
    }
    var d := ConvertToken(resp, 3);
    if d.Err? {
      return Err(d.error);
    }
    var status := NewMonitorStatus(a.value, b.value);
    r := Ok(status);
  }

  /** The params array of ask: mode hex, PID hex, then the extra parameters when there are any. */
  method FillParams(modeHex: string, pidHex: string, hexParams: Option<seq<string>>) returns (params: seq<string>)
    ensures params == [modeHex, pidHex] + (if hexParams.Some? then hexParams.value else [])
  {
    var n := if hexParams.Some? then |hexParams.value| + 2 else 2;
    var a := new string[n];
    a[0] := modeHex;
    a[1] := pidHex;
    if hexParams.Some? {
      var extra := hexParams.value;
      for i := 0 to |extra|
        modifies a
        invariant a[..2] == [modeHex, pidHex]
        invariant a[2..i + 2] == extra[..i]
      {
        a[i + 2] := extra[i];
      }
      assert a[..] == a[..2] + a[2..|extra| + 2];
    } else {
      assert a[..] == [modeHex, pidHex];
    }
    params := a[..];
  }

  class Obd2Standard {
    /** The adapter's port. */
    const comm: S.PortCommunication

    constructor (comm: S.PortCommunication)
      ensures this.comm == comm
    {
      this.comm := comm;
    }

    /** The first half of ask: the mode, the PID and the extra parameters written as one line. */
    method WriteRequest(mode: M.Mode, pid: P.Pid, hexParams: Option<seq<string>>)
      modifies comm
      ensures comm.output == old(comm.output) + Request(mode, pid, hexParams) + ["\r\n"]
      ensures comm.input == old(comm.input)
    {
      var params := FillParams(M.Hex(mode), P.Hex(pid), hexParams);
      comm.Writeln(params);
    }

    /**
     * ask: writes the request, reads the answer and classifies it line by line.
     */
    method Ask(mode: M.Mode, pid: P.Pid, hexParams: Option<seq<string>>) returns (r: Result<seq<Response>>)
      modifies comm
      ensures comm.output == old(comm.output) + Request(mode, pid, hexParams) + ["\r\n"]
      ensures comm.input == old(comm.input)[S.ChunksRead(old(comm.input), comm.maxPolls)..]
      ensures r == Exchange(old(comm.input), comm.maxPolls, mode, pid)
    {
      WriteRequest(mode, pid, hexParams);
      ghost var received := S.Receive(comm.input, comm.maxPolls);
      assert Exchange(old(comm.input), comm.maxPolls, mode, pid) ==
        if received.Err? then Err(received.error) else Classify(mode, pid, received.value);
      var lines := comm.ReadResponse();
      assert lines == received;
      if lines.Err? {
        return Err(lines.error);
      }
      r := ClassifyLines(mode, pid, lines.value);
    }

    /** askOneLine: ask, then exactly one response or an error. */
    method AskOneLine(mode: M.Mode, pid: P.Pid, hexParams: Option<seq<string>>) returns (r: Result<Response>)
      modifies comm
      ensures comm.output == old(comm.output) + Request(mode, pid, hexParams) + ["\r\n"]
      ensures comm.input == old(comm.input)[S.ChunksRead(old(comm.input), comm.maxPolls)..]
      ensures r == OneLine(Exchange(old(comm.input), comm.maxPolls, mode, pid))
    {
      var responses := Ask(mode, pid, hexParams);
      if responses.Err? {
        return Err(responses.error);
      }
      if |responses.value| > 1 {
        return Err(TooManyResponses);
      }
      if |responses.value| == 0 {
        return Err(IndexOutOfBounds);
      }
      r := Ok(responses.value[0]);
    }

    /** getSupportedPIDs: the bitmap of service $01 PID $00, or null on an error answer. */
    method GetSupportedPids() returns (r: Result<Option<seq<bool>>>)
      modifies comm
      ensures comm.output == old(comm.output) + Request(M.CurrentData, P.PidsSupported, Some([])) + ["\r\n"]
      ensures comm.input == old(comm.input)[S.ChunksRead(old(comm.input), comm.maxPolls)..]
      ensures var line := OneLine(Exchange(old(comm.input), comm.maxPolls, M.CurrentData, P.PidsSupported));
        r == if line.Err? then Err(line.error) else SupportedPidsOf(line.value)
    {
      var line := AskOneLine(M.CurrentData, P.PidsSupported, Some([]));
      if line.Err? {
        return Err(line.error);
      }
      var resp := line.value;
      if IsError(resp) {
        return Ok(None);
      }
      if Data(resp).None? {
        return Err(NullPointer);
      }
      var bits := ConvertHexToBooleanArray(Data(resp).value);
      if bits.Err? {
        return Err(bits.error);
      }
      r := Ok(Some(bits.value));
    }

    /** getFuelStatus: the first data byte through FuelStatus.parseHex. */
    method GetFuelStatus(freezed: bool) returns (r: Result<Option<FS.FuelStatus>>)
      modifies comm
      ensures comm.output == old(comm.output) + Request(GetMode(freezed), P.FuelStatus, Some([])) + ["\r\n"]
      ensures comm.input == old(comm.input)[S.ChunksRead(old(comm.input), comm.maxPolls)..]
      ensures var line := OneLine(Exchange(old(comm.input), comm.maxPolls, GetMode(freezed), P.FuelStatus));
        r == if line.Err? then Err(line.error) else FuelStatusOf(line.value)
    {
      var line := AskOneLine(GetMode(freezed), P.FuelStatus, Some([]));
      if line.Err? {
        return Err(line.error);
      }
      r := FuelStatusOf(line.value);
    }

    /** getEcuCompatibility: the first data byte through EcuCompatibility.parseHex. */
    method GetEcuCompatibility() returns (r: Result<Option<EC.EcuCompatibility>>)
      modifies comm
      ensures comm.output == old(comm.output) + Request(M.CurrentData, P.EcuCompatibility, Some([])) + ["\r\n"]
      ensures comm.input == old(comm.input)[S.ChunksRead(old(comm.input), comm.maxPolls)..]
      ensures var line := OneLine(Exchange(old(comm.input), comm.maxPolls, M.CurrentData, P.EcuCompatibility));
        r == if line.Err? then Err(line.error) else EcuCompatibilityOf(line.value)
    {
      var line := AskOneLine(M.CurrentData, P.EcuCompatibility, Some([]));
      if line.Err? {
        return Err(line.error);
      }
      r := EcuCompatibilityOf(line.value);
    }

    /** getSecondaryAirStatus: the first data byte through AirStatus.parseHex. */
    method GetSecondaryAirStatus(freezed: bool) returns (r: Result<Option<AS.AirStatus>>)
      modifies comm
      ensures comm.output == old(comm.output) + Request(GetMode(freezed), P.SecondaryAirStatus, Some([])) + ["\r\n"]
      ensures comm.input == old(comm.input)[S.ChunksRead(old(comm.input), comm.maxPolls)..]
      ensures var line := OneLine(Exchange(old(comm.input), comm.maxPolls, GetMode(freezed), P.SecondaryAirStatus));
        r == if line.Err? then Err(line.error) else AirStatusOf(line.value)
    {
      var line := AskOneLine(GetMode(freezed), P.SecondaryAirStatus, Some([]));
      if line.Err? {
        return Err(line.error);
      }
      r := AirStatusOf(line.value);
    }

    /** clearTroubleCodes: service $04; only the failure of askOneLine is visible. */
    method ClearTroubleCodes() returns (o: Outcome)
      modifies comm
      ensures comm.output == old(comm.output) + Request(M.ClearTroubleCodes, P.ClearTroubleCodesPid, Some([])) + ["\r\n"]
      ensures comm.input == old(comm.input)[S.ChunksRead(old(comm.input), comm.maxPolls)..]
      ensures var line := OneLine(Exchange(old(comm.input), comm.maxPolls, M.ClearTroubleCodes, P.ClearTroubleCodesPid));
        o == if line.Err? then Fail(line.error) else Pass
    {
      var line := AskOneLine(M.ClearTroubleCodes, P.ClearTroubleCodesPid, Some([]));
      o := if line.Err? then Fail(line.error) else Pass;
    }

    /** The single-byte temperature getters (coolant, oil, intake air, ...): A - 40. */
    method GetTemperature(t: Thermometer, freezed: bool) returns (r: Result<Option<int>>)
      modifies comm
      ensures comm.output == old(comm.output) + Request(GetMode(freezed), ThermometerPid(t), Some([])) + ["\r\n"]
      ensures comm.input == old(comm.input)[S.ChunksRead(old(comm.input), comm.maxPolls)..]
      ensures var line := OneLine(Exchange(old(comm.input), comm.maxPolls, GetMode(freezed), ThermometerPid(t)));
        r == if line.Err? then Err(line.error) else Temperature(line.value)
    {
      var line := AskOneLine(GetMode(freezed), ThermometerPid(t), Some([]));
      if line.Err? {
        return Err(line.error);
      }
      r := Temperature(line.value);
    }

    /** The distance getters: A * 256 + B. */
    method GetDistance(o: Odometer, freezed: bool) returns (r: Result<Option<int>>)
      modifies comm
      ensures comm.output == old(comm.output) + Request(GetMode(freezed), OdometerPid(o), Some([])) + ["\r\n"]
      ensures comm.input == old(comm.input)[S.ChunksRead(old(comm.input), comm.maxPolls)..]
      ensures var line := OneLine(Exchange(old(comm.input), comm.maxPolls, GetMode(freezed), OdometerPid(o)));
        r == if line.Err? then Err(line.error) else Distance(line.value)
    {
      var line := AskOneLine(GetMode(freezed), OdometerPid(o), Some([]));
      if line.Err? {
        return Err(line.error);
      }
      r := Distance(line.value);
    }

    /**
     * getMonitorStatus: bytes A to D converted, then a fresh MonitorStatus set from the bits of A
     * and B; null on an error answer.
     */
    method GetMonitorStatus() returns (r: Result<MS.MonitorStatus?>)
      modifies comm
      ensures comm.output == old(comm.output) + Request(M.CurrentData, P.MonitorStatus, Some([])) + ["\r\n"]
      ensures comm.input == old(comm.input)[S.ChunksRead(old(comm.input), comm.maxPolls)..]
      ensures var line := OneLine(Exchange(old(comm.input), comm.maxPolls, M.CurrentData, P.MonitorStatus));
        var expected := if line.Err? then Err(line.error) else MonitorStatusOf(line.value);
        (r.Ok? <==> expected.Ok?)
        && (r.Err? ==> r.error == expected.error)
        && (r.Ok? ==> (r.value == null <==> expected.value.None?))
        && (r.Ok? && r.value != null ==> fresh(r.value) && r.value.State() == expected.value.value)
    {
      var line := AskOneLine(M.CurrentData, P.MonitorStatus, Some([]));
      if line.Err? {
        return Err(line.error);
      }
      r := DecodeMonitorStatus(line.value);
    }

    /**
     * getErrorReport: service $03; every answered line holds three trouble codes, P0000 meaning
     * none. An error answer gives null and a NO DATA answer no faults.
     */
    method GetErrorReport() returns (r: Result<Option<seq<F.Fault>>>)
      modifies comm
      ensures comm.output == old(comm.output) + Request(M.Diagnostic, P.DiagnosticCodes, Some([])) + ["\r\n"]
      ensures comm.input == old(comm.input)[S.ChunksRead(old(comm.input), comm.maxPolls)..]
      ensures var responses := Exchange(old(comm.input), comm.maxPolls, M.Diagnostic, P.DiagnosticCodes);
        r == if responses.Err? then Err(responses.error) else ErrorReport(responses.value)
    {
      var responses := Ask(M.Diagnostic, P.DiagnosticCodes, Some([]));
      if responses.Err? {
        return Err(responses.error);
      }
      var rs := responses.value;
      if |rs| == 0 {
        return Ok(Some([]));
      }
      if IsError(rs[0]) {
        return Ok(None);
      }
      if rs[0].NoData? {
        return Ok(Some([]));
      }
      var faults := DecodeAll(rs);
      if faults.Err? {
        return Err(faults.error);
      }
      r := Ok(Some(faults.value));
    }
  }
}
