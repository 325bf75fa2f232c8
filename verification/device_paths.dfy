/** The by-id links a persistent disk can appear under. */
module DevicePaths {
  import opened GoStrings
  import opened GoPath
  import opened VolumeId

  const DISK_BY_ID_PATH := "/host/dev/disk/by-id/"
  const DISK_GOOGLE_PREFIX := "google-"
  const DISK_SCSI_GOOGLE_PREFIX := "scsi-0Google_PersistentDisk_"
  const DISK_PARTITION_SUFFIX := "-part"

  function Suffix(partition: string): string {
    if partition == "" then "" else DISK_PARTITION_SUFFIX + partition
  }

  function ByIdPath(prefix: string, pdName: string): (r: string)
    ensures r != ""
  {
    PathJoin(DISK_BY_ID_PATH, prefix + pdName)
  }

  /** The candidate links, most specific prefix first. */
  function ByIdPaths(pdName: string, partition: string): seq<string> {
    [ByIdPath(DISK_GOOGLE_PREFIX, pdName) + Suffix(partition),
     ByIdPath(DISK_SCSI_GOOGLE_PREFIX, pdName) + Suffix(partition)]
  }

  method GetDiskByIdPaths(pdName: string, partition: string) returns (r: seq<string>)
    ensures r == ByIdPaths(pdName, partition)
  {
    hide ByIdPath;
    var devicePaths := new string[][ByIdPath(DISK_GOOGLE_PREFIX, pdName), ByIdPath(DISK_SCSI_GOOGLE_PREFIX, pdName)];
    ghost var joined := devicePaths[..];
    if partition != "" {
      for i := 0 to devicePaths.Length
        invariant forall k :: 0 <= k < i ==> devicePaths[k] == joined[k] + DISK_PARTITION_SUFFIX + partition
        invariant forall k :: i <= k < devicePaths.Length ==> devicePaths[k] == joined[k]
      {
        devicePaths[i] := devicePaths[i] + DISK_PARTITION_SUFFIX + partition;
      }
    }
    assert forall s: string :: s + DISK_PARTITION_SUFFIX + partition == s + (DISK_PARTITION_SUFFIX + partition);
    assert forall s: string :: s + "" == s;
    return devicePaths[..];
  }

  // ---- Which names survive the joining ----

  /** Nothing after a slash of the name is empty, "." or "..". */
  ghost predicate Plain(name: string) {
    AllOrdinary(Split(name, '/')[1..])
  }

  /** The name a volume identifier carries holds no slash at all. */
  lemma ParsedNamesArePlain(id: string)
    ensures SplitZoneNameId(id).Some? ==> Plain(SplitZoneNameId(id).value.name)
  {
    SplitThenCombine(id);
    if SplitZoneNameId(id).Some? {
      SplitSingle(SplitZoneNameId(id).value.name, '/');
    }
  }

  lemma {:induction false} SplitPrefix(prefix: string, s: string, sep: char)
    requires Free(prefix, sep)
    ensures Split(prefix + s, sep) == [prefix + Split(s, sep)[0]] + Split(s, sep)[1..]
  {
    if prefix == "" {
      assert prefix + s == s && prefix + Split(s, sep)[0] == Split(s, sep)[0];
    } else {
      assert (prefix + s)[1..] == prefix[1..] + s;
      SplitPrefix(prefix[1..], s, sep);
      assert [prefix[0]] + (prefix[1..] + Split(s, sep)[0]) == prefix + Split(s, sep)[0];
    }
  }

  lemma JoinOfFour(a: string, b: string, c: string, d: string, sep: char)
    ensures Join([a, b, c, d], sep) == a + [sep] + (b + [sep] + (c + [sep] + d))
  {
    assert [c, d][1..] == [d] && Join([c, d], sep) == c + [sep] + d;
    assert [b, c, d][1..] == [c, d] && Join([b, c, d], sep) == b + [sep] + Join([c, d], sep);
    assert [a, b, c, d][1..] == [b, c, d];
  }

  lemma ByIdDirectory()
    ensures DISK_BY_ID_PATH == Directory(["host", "dev", "disk", "by-id"])
  {
    JoinOfFour("host", "dev", "disk", "by-id", '/');
    hide Join;
  }

  lemma ByIdElements()
    ensures Elements(["host", "dev", "disk", "by-id"])
    ensures DISK_BY_ID_PATH == Directory(["host", "dev", "disk", "by-id"])
  {
    ByIdDirectory();
    hide Directory;
  }

  /** The joined path is the directory, the prefix and the name as they stand exactly for plain names. */
  lemma ByIdPathKeepsExactly(prefix: string, name: string)
    requires |prefix| > 2 && Free(prefix, '/')
    ensures ByIdPath(prefix, name) == DISK_BY_ID_PATH + (prefix + name) <==> Plain(name)
  {
    hide PathJoin;
    ByIdElements();
    PathJoinKeepsExactly(["host", "dev", "disk", "by-id"], prefix + name);
    SplitPrefix(prefix, name, '/');
    hide Split;
    var names, parts := Split(prefix + name, '/'), Split(name, '/');
    assert names[1..] == parts[1..];
    assert AllOrdinary(names) <==> AllOrdinary(names[1..]) by {
      assert Ordinary(names[0]);
      assert forall i :: 0 < i < |names| ==> names[i] == names[1..][i - 1];
      assert forall i :: 0 <= i < |names| - 1 ==> names[i + 1] == names[1..][i];
    }
  }

  lemma PlainPath(prefix: string, name: string, suffix: string)
    requires |prefix| > 2 && Free(prefix, '/') && Plain(name)
    ensures ByIdPath(prefix, name) + suffix == DISK_BY_ID_PATH + prefix + (name + suffix)
  {
    ByIdPathKeepsExactly(prefix, name);
    hide ByIdPath, Plain;
  }

  /** The candidates of a plain name, spelt out. */
  lemma PlainPaths(name: string, partition: string)
    requires Plain(name)
    ensures ByIdPaths(name, partition) ==
            [DISK_BY_ID_PATH + DISK_GOOGLE_PREFIX + (name + Suffix(partition)),
             DISK_BY_ID_PATH + DISK_SCSI_GOOGLE_PREFIX + (name + Suffix(partition))]
  {
    hide ByIdPath, Plain, Suffix;
    PlainPath(DISK_GOOGLE_PREFIX, name, Suffix(partition));
    PlainPath(DISK_SCSI_GOOGLE_PREFIX, name, Suffix(partition));
  }

  /** The links a plain name is looked for under, in this order. */
  lemma PlainLinks(name: string)
    requires Plain(name)
    ensures ByIdPaths(name, "") == ["/host/dev/disk/by-id/" + "google-" + name,
                                    "/host/dev/disk/by-id/" + "scsi-0Google_PersistentDisk_" + name]
  {
    PlainPaths(name, "");
    assert name + Suffix("") == name;
    hide ByIdPaths, Suffix;
  }

  /** With a partition, both carry "-part" and the partition behind what they are without one. */
  lemma PartitionLinks(name: string, partition: string)
    requires partition != ""
    ensures var plain, links := ByIdPaths(name, ""), ByIdPaths(name, partition);
            links == [plain[0] + "-part" + partition, plain[1] + "-part" + partition]
  {
    hide ByIdPath;
    var g, h := ByIdPath(DISK_GOOGLE_PREFIX, name), ByIdPath(DISK_SCSI_GOOGLE_PREFIX, name);
    assert g + Suffix("") == g && h + Suffix("") == h;
    assert g + Suffix(partition) == g + "-part" + partition && h + Suffix(partition) == h + "-part" + partition;
  }

  // ---- Whose candidates they are ----

  lemma PrefixCancels(a: string, x: string, y: string)
    ensures a + x == a + y <==> x == y
  {
    assert x == (a + x)[|a|..] && y == (a + y)[|a|..];
  }

  lemma PrefixesDisjoint(g: string, h: string, at: nat, x: string, y: string)
    requires at < |g| && at < |h| && g[at] != h[at]
    ensures (forall p :: p in [g + x, h + x] ==> p !in [g + y, h + y]) <==> x != y
  {
    PrefixCancels(g, x, y);
    PrefixCancels(h, x, y);
    assert (g + x)[at] != (h + y)[at] && (h + x)[at] != (g + y)[at];
    if x == y {
      assert g + x in [g + y, h + y];
    }
  }

  /** The candidates of two plain names and partitions are disjoint, as two lists, exactly when name
      and partition suffix, written together, differ. */
  lemma CandidatesDisjoint(n1: string, p1: string, n2: string, p2: string)
    requires Plain(n1) && Plain(n2)
    ensures (forall p :: p in ByIdPaths(n1, p1) ==> p !in ByIdPaths(n2, p2)) <==> n1 + Suffix(p1) != n2 + Suffix(p2)
  {
    PlainPaths(n1, p1);
    PlainPaths(n2, p2);
    var google, scsi := DISK_BY_ID_PATH + DISK_GOOGLE_PREFIX, DISK_BY_ID_PATH + DISK_SCSI_GOOGLE_PREFIX;
    PrefixesDisjoint(google, scsi, |DISK_BY_ID_PATH|, n1 + Suffix(p1), n2 + Suffix(p2));
    hide ByIdPaths, Plain, Suffix;
  }

  /** For one partition that is: exactly when the names differ. */
  lemma SamePartitionDisjoint(n1: string, n2: string, partition: string)
    requires Plain(n1) && Plain(n2)
    ensures (forall p :: p in ByIdPaths(n1, partition) ==> p !in ByIdPaths(n2, partition)) <==> n1 != n2
  {
    CandidatesDisjoint(n1, partition, n2, partition);
    var a, b := n1 + Suffix(partition), n2 + Suffix(partition);
    if a == b {
      assert |n1| == |n2|;
      assert n1 == a[..|n1|] && n2 == b[..|n1|];
    }
  }

  /** Names that are not plain need not be disjoint: every name shares its first candidate with
      another one, which the joining cleans to the same path. */
  lemma CleanedNamesCollide(name: string, partition: string)
    ensures var other := "x/../" + DISK_GOOGLE_PREFIX + name;
            other != name && ByIdPaths(other, partition)[0] == ByIdPaths(name, partition)[0]
  {
    hide PathJoin, Directory, Elements;
    ByIdElements();
    PathJoinClimbs(["host", "dev", "disk", "by-id"], "google-x", DISK_GOOGLE_PREFIX + name);
    assert "google-x" + "/../" + (DISK_GOOGLE_PREFIX + name) ==
           DISK_GOOGLE_PREFIX + ("x/../" + DISK_GOOGLE_PREFIX + name);
  }

  /** Across different partitions even plain names collide: a volume whose name ends like a partition
      link has the candidates of another volume's partition. */
  lemma PartitionsCollide(name: string, partition: string)
    requires partition != "" && Plain(name) && Plain(name + DISK_PARTITION_SUFFIX + partition)
    ensures ByIdPaths(name + DISK_PARTITION_SUFFIX + partition, "") == ByIdPaths(name, partition)
  {
    var n := name + DISK_PARTITION_SUFFIX + partition;
    PlainPaths(n, "");
    PlainPaths(name, partition);
    assert n + Suffix("") == name + Suffix(partition);
    hide ByIdPaths, Plain, Suffix;
  }
}
