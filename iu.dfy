/** The settings record of an indoor unit, as the indoor-unit emulator keeps it. */
module IndoorUnit {
  import opened Bytes

  datatype IndoorUnitMode = Auto | Heat | Cool | Dry | Fan

  datatype IndoorUnitFanSpeed = FanAuto | FanLow | FanMedium | FanHigh

  datatype IndoorUnitState = IndoorUnitState(
    power: bool,
    mode: IndoorUnitMode,
    fanSpeed: IndoorUnitFanSpeed,
    setpointTemp: Byte,
    defrost: bool,
    sPlasmaIon: bool,
    cleanFilter: bool,
    humidifier: bool,
    oaIntake: bool,
    awayMds: bool)
}
