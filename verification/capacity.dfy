/** Sizes: requested bytes, whole GiB, and Go's 64-bit arithmetic between them. */
module Capacity {
  import opened Wrappers

  newtype int64 = x: int | -0x8000_0000_0000_0000 <= x < 0x8000_0000_0000_0000

  const DEFAULT_VOLUME_SIZE: int64 := 5_000_000_000
  const MINIMUM_DISK_SIZE_IN_GB: int64 := 5
  const GIB := 1_073_741_824
  const MINIMUM_BYTES := 5 * GIB

  datatype CapacityRange = CapacityRange(requiredBytes: int64, limitBytes: int64)

  /** Go's int64 arithmetic wraps around. */
  function Wrap64(x: int): int64 {
    ((x + 0x8000_0000_0000_0000) % 0x1_0000_0000_0000_0000 - 0x8000_0000_0000_0000) as int64
  }

  /** Go's division truncates towards zero. */
  function BytesToGb(bytes: int64): int64 {
    (if bytes >= 0 then bytes as int / GIB else -(-(bytes as int) / GIB)) as int64
  }

  function GbToBytes(gb: int64): int64 {
    Wrap64(gb as int * GIB)
  }

  /** The generated getters answer 0 on a nil range. */
  function RequiredBytes(range: Option<CapacityRange>): int64 {
    match range case None => 0 case Some(r) => r.requiredBytes
  }

  function LimitBytes(range: Option<CapacityRange>): int64 {
    match range case None => 0 case Some(r) => r.limitBytes
  }

  function Max(a: int64, b: int64): int64 {
    if a < b then b else a
  }

  /** The capacity a request asks for: its required bytes, or failing those its limit, and never
      less than the default. */
  function RequestedBytes(range: Option<CapacityRange>): int64 {
    var wanted := if RequiredBytes(range) > 0 then RequiredBytes(range) else LimitBytes(range);
    Max(wanted, DEFAULT_VOLUME_SIZE)
  }

  method GetRequestCapacity(capRange: Option<CapacityRange>) returns (capBytes: int64)
    ensures capBytes == RequestedBytes(capRange)
  {
    if capRange.None? {
      return DEFAULT_VOLUME_SIZE;
    }
    capBytes := 0;
    var tcap := capRange.value.requiredBytes;
    if tcap > 0 {
      capBytes := tcap;
    } else {
      tcap := capRange.value.limitBytes;
      if tcap > 0 {
        capBytes := tcap;
      }
    }
    if capBytes < DEFAULT_VOLUME_SIZE {
      capBytes := DEFAULT_VOLUME_SIZE;
    }
  }

  /** The whole-GiB size CreateVolume gives the disk of a request. */
  function ProvisionedGb(range: Option<CapacityRange>): int64 {
    Max(BytesToGb(RequestedBytes(range)), MINIMUM_DISK_SIZE_IN_GB)
  }

  /** A size whose byte count fits in 64 bits. */
  predicate Sized(gb: int64) {
    5 <= gb as int <= 8_589_934_591
  }

  lemma SizedDoesNotWrap(gb: int64)
    requires Sized(gb)
    ensures GbToBytes(gb) as int == gb as int * GIB
    ensures GbToBytes(gb) as int >= MINIMUM_BYTES
  {
  }

  /** One GiB more and the product is negative; and division truncates below zero, too. */
  lemma ArithmeticOfGo()
    ensures GbToBytes(8_589_934_592) == -0x8000_0000_0000_0000
    ensures BytesToGb(-1) == 0 && BytesToGb(-1_073_741_825) == -1
  {
  }

  /** What is provisioned is a whole number of GiB, at least five, never above what is reported
      except for that minimum, and short of it by less than one GiB. */
  lemma ProvisionedBounds(range: Option<CapacityRange>)
    ensures var cap := RequestedBytes(range) as int;
            var provisioned := GbToBytes(ProvisionedGb(range)) as int;
            && Sized(ProvisionedGb(range))
            && cap >= 5_000_000_000
            && provisioned >= MINIMUM_BYTES
            && cap - GIB < provisioned
            && (provisioned <= cap || provisioned == MINIMUM_BYTES)
  {
  }

  /** The disk holds the capacity the response reports exactly when the report is at most 5 GiB or a
      whole number of GiB. */
  lemma ReportedCapacityHonoured(range: Option<CapacityRange>)
    ensures var cap := RequestedBytes(range) as int;
            GbToBytes(ProvisionedGb(range)) as int >= cap <==> cap <= MINIMUM_BYTES || cap % GIB == 0
  {
  }

  // ---- What a request gets ----

  /** `gb` is the largest whole number of GiB that `bytes` holds. */
  predicate LargestFit(gb: int64, bytes: int64) {
    gb as int * 1_073_741_824 <= bytes as int < (gb as int + 1) * 1_073_741_824
  }

  /** `reported` and `gb` are what asking for `bytes` gets: the amount itself, from 5 * 10^9 bytes on,
      and a disk of the largest whole number of GiB in it, from 5 GiB on. Less gets these minima. */
  predicate Gets(bytes: int64, reported: int64, gb: int64) {
    && reported == (if bytes >= 5_000_000_000 then bytes else 5_000_000_000)
    && (if bytes >= 5_368_709_120 then LargestFit(gb, bytes) else gb == 5)
  }

  /** A positive required size decides alone, whatever the limit. */
  lemma RequiredDecides(required: int64, limit: int64)
    requires required > 0
    ensures var range := Some(CapacityRange(required, limit));
            Gets(required, RequestedBytes(range), ProvisionedGb(range))
  {
  }

  /** Without one the limit decides: as much is given as the limit allows. */
  lemma LimitDecides(required: int64, limit: int64)
    requires required <= 0
    ensures var range := Some(CapacityRange(required, limit));
            Gets(limit, RequestedBytes(range), ProvisionedGb(range))
  {
  }

  /** The capacity of a request that gives no range. */
  lemma NoRange()
    ensures Gets(0, RequestedBytes(None), ProvisionedGb(None))
  {
  }

  /** The bytes that decide what a request gets: the required ones if there are any, else the limit. */
  function Deciding(range: Option<CapacityRange>): int64 {
    match range
    case None => 0
    case Some(r) => if r.requiredBytes > 0 then r.requiredBytes else r.limitBytes
  }

  lemma GetsDeciding(range: Option<CapacityRange>)
    ensures Gets(Deciding(range), RequestedBytes(range), ProvisionedGb(range))
  {
    match range
    case None => NoRange();
    case Some(r) =>
      if r.requiredBytes > 0 {
        RequiredDecides(r.requiredBytes, r.limitBytes);
      } else {
        LimitDecides(r.requiredBytes, r.limitBytes);
      }
  }
}
