/** The raw configuration data the monitor is built from. */
module Config {

  datatype Resource = Cpu | Memory | Disk

  datatype Fluctuation = Under | Over

  datatype Unit = Percent | MB | GB

  datatype ResourceValue = ResourceValue(unitType: Unit, value: int)

  /** Equality takes every field into account. */
  datatype TriggerType = TriggerType(
    resource: Resource, fluctuation: Fluctuation, triggerValue: ResourceValue, duration: int)

  /** As a key, a log type is its resource and resolution; the duration is not compared. */
  datatype LogType = LogType(resource: Resource, duration: int, resolution: int)
}
