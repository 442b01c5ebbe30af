/** MonitorStatus: the decoded monitor status since trouble codes were cleared (service $01 PID $01). */
module MonitorStatuses {

  /** The values of all fields of a MonitorStatus at one moment. */
  datatype Fields = Fields(
    mil: bool,
    emissionRelatedDtcs: int,
    compressionIgnited: bool,
    misfireAvailable: bool,
    misfireIncomplete: bool,
    fuelAvailable: bool,
    fuelIncomplete: bool,
    componentsAvailable: bool,
    componentsIncomplete: bool,
    reservedBitB7: bool)

  /** The Java field defaults: false and 0. */
  const Defaults := Fields(false, 0, false, false, false, false, false, false, false, false)

  class MonitorStatus {
    var mil: bool
    var emissionRelatedDtcs: int
    var compressionIgnited: bool
    var misfireAvailable: bool
    var misfireIncomplete: bool
    var fuelAvailable: bool
    var fuelIncomplete: bool
    var componentsAvailable: bool
    var componentsIncomplete: bool
    var reservedBitB7: bool

    function State(): Fields
      reads this
    {
      Fields(mil, emissionRelatedDtcs, compressionIgnited, misfireAvailable, misfireIncomplete,
             fuelAvailable, fuelIncomplete, componentsAvailable, componentsIncomplete, reservedBitB7)
    }

    constructor ()
      ensures State() == Defaults
    {
      mil, emissionRelatedDtcs, compressionIgnited := false, 0, false;
      misfireAvailable, misfireIncomplete := false, false;
      fuelAvailable, fuelIncomplete := false, false;
      componentsAvailable, componentsIncomplete := false, false;
      reservedBitB7 := false;
    }

    method SetMil(mil: bool)
      modifies this
      ensures State() == old(State()).(mil := mil)
    {
      this.mil := mil;
    }

    method SetEmissionRelatedDtcs(dtcs: int)
      modifies this
      ensures State() == old(State()).(emissionRelatedDtcs := dtcs)
    {
      emissionRelatedDtcs := dtcs;
    }

    /** compression: true for compression ignition, false for spark. */
    method SetIgnition(compression: bool)
      modifies this
      ensures State() == old(State()).(compressionIgnited := compression)
    {
      compressionIgnited := compression;
    }

    method SetMissfire(available: bool, incomplete: bool)
      modifies this
      ensures State() == old(State()).(misfireAvailable := available, misfireIncomplete := incomplete)
    {
      misfireAvailable := available;
      misfireIncomplete := incomplete;
    }

    method SetFuel(available: bool, incomplete: bool)
      modifies this
      ensures State() == old(State()).(fuelAvailable := available, fuelIncomplete := incomplete)
    {
      fuelAvailable := available;
      fuelIncomplete := incomplete;
    }

    method SetComponents(available: bool, incomplete: bool)
      modifies this
      ensures State() == old(State()).(componentsAvailable := available, componentsIncomplete := incomplete)
    {
      componentsAvailable := available;
      componentsIncomplete := incomplete;
    }

    method SetReservedBitB7(bit: bool)
      modifies this
      ensures State() == old(State()).(reservedBitB7 := bit)
    {
      reservedBitB7 := bit;
    }
  }
}
