/** GCEMounter: the mount manager's operations as sequences of commands. */
module GceMounter {
  import opened Wrappers
  import opened DiskFormat
  import opened Host
  import opened NodeSpec
  import opened OperatingSystem

  class GCEMounter {
    const os: Os

    constructor (os: Os)
      ensures this.os == os
    {
      this.os := os;
    }

    method IsLikelyNotMountPoint(file: Path) returns (notMnt: bool, err: CheckError)
      requires file != []
      modifies os
      ensures (os.State(), CheckAnswer(notMnt, err)) == Check(os.world, old(os.State()), file)
    {
      var dev, rootDev;
      err, dev, rootDev := os.StatBoth(file);
      notMnt := true;
      if err.NoError? && dev != rootDev {
        notMnt := false;
      }
      os.NoteCheck(file, notMnt, err);
    }

    /** Stats the candidates one by one and stops at the first hit or the first stat error. */
    method VerifyDevicePath(devicePaths: seq<string>) returns (r: Option<string>)
      modifies os
      ensures (os.State(), r) == NodeSpec.VerifyDevicePath(os.world, old(os.State()), devicePaths)
    {
      for i := 0 to |devicePaths|
        invariant NodeSpec.VerifyDevicePath(os.world, old(os.State()), devicePaths)
                  == NodeSpec.VerifyDevicePath(os.world, os.State(), devicePaths[i..])
      {
        var path := devicePaths[i];
        assert devicePaths[i..][0] == path && devicePaths[i..][1..] == devicePaths[i + 1..];
        var pathExists := os.StatLink(path);
        if pathExists.None? {
          return None;
        } else if pathExists.value {
          return Some(path);
        }
      }
      return Some("");
    }

    method GetDiskFormat(disk: string) returns (format: Option<string>)
      modifies os
      ensures var (s, output) := RunLsblk(os.world, old(os.State()), disk);
              os.State() == s && format == (if output.None? then None else Some(ParseFormat(output.value)))
    {
      var output := os.Lsblk(disk);
      if output.None? {
        return None;
      }
      return Some(ParseFormat(output.value));
    }

    method FormatAndMount(source: string, target: Path, fstype: string, options: seq<string>) returns (ok: bool)
      modifies os
      ensures (os.State(), ok) == NodeSpec.FormatAndMount(os.world, old(os.State()), source, target, fstype, options)
    {
      hide Mount, Mkfs;
      var allOptions := options + ["defaults"];
      var fs := fstype;

      // Of all that fsck can report, only uncorrected errors end the attempt.
      var fsck := os.Fsck(source);
      if fsck.Fails? {
        match fsck.failure {
          case ExecutableNotFound =>
          case OtherFailure =>
          case ExitStatus(status) =>
            if status == FSCK_ERRORS_CORRECTED {
            } else if status == FSCK_ERRORS_UNCORRECTED {
              return false;
            }
        }
      }

      ok := os.Mount(ByIdLink(source), target, fs, allOptions);
      if !ok {
        var existingFormat := GetDiskFormat(source);
        if existingFormat.None? {
          return false;
        }
        if existingFormat.value != "" {
          return false;
        }
        if |fs| == 0 {
          fs := "ext4";
        }
        var made := os.Mkfs(source, fs, fs == "ext4" || fs == "ext3");
        if !made {
          return false;
        }
        ok := os.Mount(ByIdLink(source), target, fs, allOptions);
      }
    }
  }
}
