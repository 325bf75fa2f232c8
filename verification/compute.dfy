/** The Compute Engine records the driver handles. Neither is ever updated in place. */
module Compute {
  import opened Capacity

  datatype Mode = READ_WRITE | READ_ONLY

  datatype Disk = Disk(name: string, sizeGb: int64, description: string, kind: string, diskType: string)

  datatype AttachedDisk = AttachedDisk(deviceName: string, kind: string, mode: Mode, source: string, diskType: string)
}
