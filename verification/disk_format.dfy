/** What a block device holds, how lsblk prints it, and how getDiskFormat reads that print. */
module DiskFormat {
  import opened GoStrings

  const PARTITIONS := "unknown data, probably partitions"

  /** The filesystem type of a device ("" for none) and those of the devices that depend on it. */
  datatype Content = Content(fstype: string, dependents: seq<string>) {
    predicate Blank() {
      fstype == "" && dependents == []
    }
  }

  function Lines(lines: seq<string>): string {
    if lines == [] then "" else lines[0] + "\n" + Lines(lines[1..])
  }

  /** `lsblk -n -o FSTYPE`: one line for the device and one for each dependent. */
  function Lsblk(c: Content): string {
    Lines([c.fstype] + c.dependents)
  }

  /** The parsing half of getDiskFormat. */
  function ParseFormat(output: string): string {
    var lines := Split(TrimSuffix(output, '\n'), '\n');
    if lines[0] != "" then lines[0]
    else if |lines| == 1 then ""
    else PARTITIONS
  }

  /** Of all outputs, exactly the empty one and the single newline read as unformatted. */
  lemma UnformattedOutputs(output: string)
    ensures ParseFormat(output) == "" <==> output == "" || output == "\n"
  {
  }

  /** Parser against printer: whatever a device holds, its own print reads as unformatted exactly
      when it holds neither a filesystem nor dependents. */
  lemma ReadsBlankExactly(c: Content)
    ensures ParseFormat(Lsblk(c)) == "" <==> c.Blank()
  {
    UnformattedOutputs(Lsblk(c));
    var text := Lines(c.dependents);
    assert ([c.fstype] + c.dependents)[1..] == c.dependents;
    assert Lsblk(c) == c.fstype + "\n" + text;
    if Lsblk(c) == "\n" {
      assert |c.fstype| == 0 && |text| == 0;
    }
  }

  /** A filesystem name without a newline is read back as it is; dependents without a filesystem are
      read as probable partitions. */
  lemma ReadsName(c: Content)
    requires Free(c.fstype, '\n') && !c.Blank()
    ensures ParseFormat(Lsblk(c)) == if c.fstype != "" then c.fstype else "unknown data, probably partitions"
  {
    var text := Lines(c.dependents);
    assert ([c.fstype] + c.dependents)[1..] == c.dependents;
    var output := Lsblk(c);
    assert output == c.fstype + "\n" + text;
    LinesEndInNewline([c.fstype] + c.dependents);
    SplitSingle(c.fstype, '\n');
    if text == "" {
      assert TrimSuffix(output, '\n') == c.fstype;
      LinesEmpty(c.dependents);
    } else {
      var front := text[..|text| - 1];
      assert TrimSuffix(output, '\n') == c.fstype + ['\n'] + front;
      SplitConcat(c.fstype, front, '\n');
    }
  }

  lemma {:induction false} LinesEndInNewline(lines: seq<string>)
    ensures lines != [] ==> Lines(lines) != "" && Lines(lines)[|Lines(lines)| - 1] == '\n'
  {
    if lines != [] {
      LinesEndInNewline(lines[1..]);
    }
  }

  lemma LinesEmpty(lines: seq<string>)
    ensures Lines(lines) == "" <==> lines == []
  {
  }
}
