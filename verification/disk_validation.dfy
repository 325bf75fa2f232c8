/** "Is the disk that already exists the one this request wants?", as the fake and the real
    provider each decide it. */
module DiskValidation {
  import opened Wrappers
  import opened GoStrings
  import opened Capacity
  import opened Compute

  const DESCRIPTION := "Disk created by GCE-PD CSI Driver"

  /** The type test both providers share. It lets a disk through when the last segment of its type
      DIFFERS from the requested type. */
  predicate TypeAccepted(disk: Disk, diskType: string) {
    var last := LastSegment(disk.diskType);
    var typeMatch := last != diskType;
    var typeDefault := diskType == "" && last == "pd-standard";
    typeMatch || typeDefault
  }

  predicate FakeAccepts(disk: Disk, diskType: string, reqBytes: int64, limBytes: int64) {
    var bytes := GbToBytes(disk.sizeGb);
    && (bytes >= reqBytes || reqBytes == 0)
    && (bytes <= limBytes || limBytes == 0)
    && TypeAccepted(disk, diskType)
  }

  predicate RealAccepts(disk: Disk, diskType: string, reqBytes: int64, limBytes: int64) {
    var bytes := GbToBytes(disk.sizeGb);
    && (bytes >= reqBytes && reqBytes != 0)
    && (bytes <= limBytes && limBytes != 0)
    && TypeAccepted(disk, diskType)
  }

  /** The disk CreateVolume builds for a request, given the type URI its provider prints. */
  function DiskFor(name: string, range: Option<CapacityRange>, typeURI: string): Disk {
    Disk(name, ProvisionedGb(range), DESCRIPTION, "", typeURI)
  }

  /** The fake prints every type as the empty URI. */
  function FakeTypeURI(zone: string, diskType: string): string {
    ""
  }

  function RealTypeURI(project: string, zone: string, diskType: string): string {
    "projects/" + project + "/zones/" + zone + "/diskTypes/" + diskType
  }

  /** The requests whose own disk the capacity check accepts: nothing is lost to rounding down, and
      the limit, when there is one, is not below what rounding up to the minimum gives. */
  predicate CapacityRepeatable(range: Option<CapacityRange>) {
    var required, limit := RequiredBytes(range) as int, LimitBytes(range) as int;
    && (required <= MINIMUM_BYTES || required % GIB == 0)
    && (limit == 0 || ProvisionedGb(range) as int * GIB <= limit)
  }

  /** The disk provisioned for `made` satisfies the bounds of `asked`. */
  predicate Covers(made: Option<CapacityRange>, asked: Option<CapacityRange>) {
    var bytes := ProvisionedGb(made) as int * GIB;
    && RequiredBytes(asked) as int <= bytes
    && (LimitBytes(asked) == 0 || bytes <= LimitBytes(asked) as int)
  }

  /** On the fake, the disk built for one request is acceptable to another of its name exactly when
      its size is within the other's bounds and the other names a disk type: any type will do. */
  lemma FakeAcceptsExactly(name: string, made: Option<CapacityRange>, zone: string, madeType: string,
                           asked: Option<CapacityRange>, diskType: string)
    ensures var disk := DiskFor(name, made, FakeTypeURI(zone, madeType));
            FakeAccepts(disk, diskType, RequiredBytes(asked), LimitBytes(asked))
            <==> Covers(made, asked) && diskType != ""
  {
  }

  /** A request's own disk is within its bounds exactly when the capacity is repeatable. */
  lemma CoversItself(range: Option<CapacityRange>)
    ensures Covers(range, range) <==> CapacityRepeatable(range)
  {
  }

  /** The fake's capacity test, which reads 0 as "no bound", on a request's own disk. */
  lemma OwnCapacity(range: Option<CapacityRange>)
    ensures var bytes := GbToBytes(ProvisionedGb(range));
            var req, lim := RequiredBytes(range), LimitBytes(range);
            (bytes >= req || req == 0) && (bytes <= lim || lim == 0) <==> CapacityRepeatable(range)
  {
  }

  /** The last segment of a type URI is the type itself, unless the type holds a slash. */
  lemma LastSegmentOfURI(prefix: string, diskType: string)
    ensures LastSegment(prefix + "/" + diskType) == diskType <==> Free(diskType, '/')
  {
    SplitConcat(prefix, diskType, '/');
    SplitSingle(diskType, '/');
    JoinSplit(diskType, '/');
  }

  /** A type URI names project, zone and type, in this order, and they can be read back. */
  lemma TypeURIReadsBack(project: string, zone: string, diskType: string)
    requires Free(project, '/') && Free(zone, '/') && Free(diskType, '/')
    ensures Split(RealTypeURI(project, zone, diskType), '/') ==
            ["projects", project, "zones", zone, "diskTypes", diskType]
  {
    assert Free("projects", '/') && Free("zones", '/') && Free("diskTypes", '/');
    SplitJoin(["projects", project, "zones", zone, "diskTypes", diskType], '/');
    hide Split, Free, Join;
    JoinOfPairs("projects", project, "zones", zone, "diskTypes", diskType, '/');
    assert "projects" + ['/'] == "projects/";
    assert ['/'] + "zones" + ['/'] == "/zones/";
    assert ['/'] + "diskTypes" + ['/'] == "/diskTypes/";
  }

  lemma JoinOfPairs(a: string, x: string, b: string, y: string, c: string, z: string, sep: char)
    ensures Join([a, x, b, y, c, z], sep) == (a + [sep]) + x + ([sep] + b + [sep]) + y + ([sep] + c + [sep]) + z
  {
    JoinConcat([a, x], [b, y, c, z], sep);
    JoinConcat([b, y], [c, z], sep);
    JoinOfTwo(a, x, sep);
    JoinOfTwo(b, y, sep);
    JoinOfTwo(c, z, sep);
    hide Join;
    assert [a, x] + [b, y, c, z] == [a, x, b, y, c, z] && [b, y] + [c, z] == [b, y, c, z];
  }

  lemma JoinOfTwo(a: string, b: string, sep: char)
    ensures Join([a, b], sep) == a + [sep] + b
  {
    assert [a, b][1..] == [b];
  }

  lemma LastSegmentOfTail(prefix: string, tail: string)
    ensures LastSegment(prefix + "/" + tail) == LastSegment(tail)
  {
    SplitConcat(prefix, tail, '/');
  }

  /** What is seen of a type in its URI: its last segment, which is the type itself unless it holds a slash. */
  lemma RealTypeShows(project: string, zone: string, diskType: string)
    ensures LastSegment(RealTypeURI(project, zone, diskType)) == LastSegment(diskType)
    ensures Free(diskType, '/') <==> LastSegment(diskType) == diskType
  {
    var prefix := "projects/" + project + "/zones/" + zone + "/diskTypes";
    assert RealTypeURI(project, zone, diskType) == prefix + "/" + diskType;
    LastSegmentOfTail(prefix, diskType);
    LastSegmentOfURI(prefix, diskType);
  }

  /** On the real provider the disk built for one request is acceptable to another of its name exactly
      when the other gives both bounds, the size is within them, and the other asks for a type that is
      NOT the last segment of the type the disk was made with. */
  lemma RealAcceptsExactly(project: string, name: string, made: Option<CapacityRange>, zone: string, madeType: string,
                           asked: Option<CapacityRange>, diskType: string)
    ensures var disk := DiskFor(name, made, RealTypeURI(project, zone, madeType));
            RealAccepts(disk, diskType, RequiredBytes(asked), LimitBytes(asked))
            <==> Covers(made, asked) && RequiredBytes(asked) != 0 && LimitBytes(asked) != 0
                 && LastSegment(madeType) != diskType
  {
    ProvisionedBounds(made);
    SizedDoesNotWrap(ProvisionedGb(made));
    RealTypeShows(project, zone, madeType);
  }

  /** On the real provider a request accepts its own disk only when required and limit are both
      given, the capacity is repeatable AND the type holds a slash: the inverted type test turns
      every ordinary identical retry away. */
  lemma RealAcceptsOwnDisk(project: string, name: string, range: Option<CapacityRange>, zone: string, diskType: string)
    ensures var disk := DiskFor(name, range, RealTypeURI(project, zone, diskType));
            RealAccepts(disk, diskType, RequiredBytes(range), LimitBytes(range))
            <==> CapacityRepeatable(range) && RequiredBytes(range) != 0 && LimitBytes(range) != 0
                 && !Free(diskType, '/')
  {
    RealAcceptsExactly(project, name, range, zone, diskType, range, diskType);
    CoversItself(range);
    RealTypeShows(project, zone, diskType);
  }
}
