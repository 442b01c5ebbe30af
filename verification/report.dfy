/** Report: the values read from the vehicle for one diagnostic report. */
module Reports {
  import opened Wrappers
  import opened FuelStatuses
  import opened MonitorStatuses

  /** The fields of a Report other than the supported-PIDs array. Java doubles are reals here. */
  datatype Scalars = Scalars(
    monitorStatus: MonitorStatus?,
    distanceSinceErrorCodesCleared: int,
    distanceWithMalfunction: int,
    engineCoolantTemperature: int,
    engineLoad: real,
    fuelInjectionTiming: real,
    fuelLevelInput: real,
    fuelRate: real,
    fuelStatus: Option<FuelStatus>,
    fuelTrimPercentShortTerm: real,
    fuelTrimPercentLongTerm: real,
    intakeAirTemperature: int)

  /** A fresh array with the contents of `a`: Arrays.copyOf(a, a.length). */
  method CopyOf(a: array<bool>) returns (b: array<bool>)
    ensures fresh(b) && b[..] == a[..]
  {
    b := new bool[a.Length];
    for i := 0 to a.Length
      invariant b[..i] == a[..i]
    {
      b[i] := a[i];
    }
    assert b[..] == b[..a.Length];
  }

  class Report {
    var supportedPids: array?<bool>
    var monitorStatus: MonitorStatus?
    var distanceSinceErrorCodesCleared: int
    var distanceWithMalfunction: int
    var engineCoolantTemperature: int
    var engineLoad: real
    var fuelInjectionTiming: real
    var fuelLevelInput: real
    var fuelRate: real
    var fuelStatus: Option<FuelStatus>
    var fuelTrimPercentShortTerm: real
    var fuelTrimPercentLongTerm: real
    var intakeAirTemperature: int

    function Values(): Scalars
      reads this
    {
      Scalars(monitorStatus, distanceSinceErrorCodesCleared, distanceWithMalfunction,
              engineCoolantTemperature, engineLoad, fuelInjectionTiming, fuelLevelInput, fuelRate,
              fuelStatus, fuelTrimPercentShortTerm, fuelTrimPercentLongTerm, intakeAirTemperature)
    }

    /** A new report: every reference null, every number zero. */
    constructor ()
      ensures supportedPids == null
      ensures Values() == Scalars(null, 0, 0, 0, 0.0, 0.0, 0.0, 0.0, None, 0.0, 0.0, 0)
    {
      supportedPids, monitorStatus := null, null;
      distanceSinceErrorCodesCleared, distanceWithMalfunction, engineCoolantTemperature := 0, 0, 0;
      engineLoad, fuelInjectionTiming, fuelLevelInput, fuelRate := 0.0, 0.0, 0.0, 0.0;
      fuelStatus := None;
      fuelTrimPercentShortTerm, fuelTrimPercentLongTerm := 0.0, 0.0;
      intakeAirTemperature := 0;
    }

    /**
     * getSupportedPIDS: a fresh copy of the stored array, so the caller cannot change the report;
     * before any array was stored the null field is dereferenced.
     */
    method GetSupportedPids() returns (r: Result<array<bool>>)
      ensures supportedPids == null ==> r == Err(NullPointer)
      ensures supportedPids != null ==> r.Ok? && fresh(r.value) && r.value[..] == supportedPids[..]
    {
      if supportedPids == null {
        return Err(NullPointer);
      }
      var copy := CopyOf(supportedPids);
      return Ok(copy);
    }

    /**
     * setSupportedPIDS: stores a fresh copy of the argument, so later changes to the argument do
     * not reach the report; a null argument is dereferenced and nothing changes.
     */
    method SetSupportedPids(pids: array?<bool>) returns (o: Outcome)
      modifies this
      ensures pids == null ==> o == Fail(NullPointer) && supportedPids == old(supportedPids)
      ensures pids != null ==> o == Pass && fresh(supportedPids) && supportedPids[..] == pids[..]
      ensures Values() == old(Values())
    {
      if pids == null {
        return Fail(NullPointer);
      }
      supportedPids := CopyOf(pids);
      return Pass;
    }

    method SetMonitorStatus(monitorStatus: MonitorStatus?)
      modifies this
      ensures Values() == old(Values()).(monitorStatus := monitorStatus)
      ensures supportedPids == old(supportedPids)
    {
      this.monitorStatus := monitorStatus;
    }

    method SetDistanceSinceErrorCodesCleared(distance: int)
      modifies this
      ensures Values() == old(Values()).(distanceSinceErrorCodesCleared := distance)
      ensures supportedPids == old(supportedPids)
    {
      distanceSinceErrorCodesCleared := distance;
    }

    method SetDistanceWithMalfunction(distance: int)
      modifies this
      ensures Values() == old(Values()).(distanceWithMalfunction := distance)
      ensures supportedPids == old(supportedPids)
    {
      distanceWithMalfunction := distance;
    }

    method SetEngineCoolantTemperature(temperature: int)
      modifies this
      ensures Values() == old(Values()).(engineCoolantTemperature := temperature)
      ensures supportedPids == old(supportedPids)
    {
      engineCoolantTemperature := temperature;
    }

    method SetEngineLoad(load: real)
      modifies this
      ensures Values() == old(Values()).(engineLoad := load)
      ensures supportedPids == old(supportedPids)
    {
      engineLoad := load;
    }

    method SetFuelInjectionTiming(timing: real)
      modifies this
      ensures Values() == old(Values()).(fuelInjectionTiming := timing)
      ensures supportedPids == old(supportedPids)
    {
      fuelInjectionTiming := timing;
    }

    method SetFuelLevelInput(level: real)
      modifies this
      ensures Values() == old(Values()).(fuelLevelInput := level)
      ensures supportedPids == old(supportedPids)
    {
      fuelLevelInput := level;
    }

    method SetFuelRate(rate: real)
      modifies this
      ensures Values() == old(Values()).(fuelRate := rate)
      ensures supportedPids == old(supportedPids)
    {
      fuelRate := rate;
    }

    method SetFuelStatus(status: Option<FuelStatus>)
      modifies this
      ensures Values() == old(Values()).(fuelStatus := status)
      ensures supportedPids == old(supportedPids)
    {
      fuelStatus := status;
    }

    method SetFuelTrimPercentShortTerm(percent: real)
      modifies this
      ensures Values() == old(Values()).(fuelTrimPercentShortTerm := percent)
      ensures supportedPids == old(supportedPids)
    {
      fuelTrimPercentShortTerm := percent;
    }

    method SetFuelTrimPercentLongTerm(percent: real)
      modifies this
      ensures Values() == old(Values()).(fuelTrimPercentLongTerm := percent)
      ensures supportedPids == old(supportedPids)
    {
      fuelTrimPercentLongTerm := percent;
    }

    method SetIntakeAirTemperature(temperature: int)
      modifies this
      ensures Values() == old(Values()).(intakeAirTemperature := temperature)
      ensures supportedPids == old(supportedPids)
    {
      intakeAirTemperature := temperature;
    }
  }
}
