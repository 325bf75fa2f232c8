/** The argument list of mount(8), and how mount reads it back. */
module MountArgs {
  import opened GoStrings

  /** `mount [-t fstype] [-o options] [source] target`, built by successive appends. */
  method MakeMountArgs(source: string, target: string, fstype: string, options: seq<string>)
    returns (mountArgs: seq<string>)
    ensures mountArgs == Args(source, target, fstype, options)
  {
    mountArgs := [];
    if |fstype| > 0 {
      mountArgs := mountArgs + ["-t", fstype];
    }
    if |options| > 0 {
      mountArgs := mountArgs + ["-o", Join(options, ',')];
    }
    if |source| > 0 {
      mountArgs := mountArgs + [source];
    }
    mountArgs := mountArgs + [target];
  }

  function Args(source: string, target: string, fstype: string, options: seq<string>): seq<string> {
    (if fstype == "" then [] else ["-t", fstype])
    + (if options == [] then [] else ["-o", Join(options, ',')])
    + (if source == "" then [] else [source])
    + [target]
  }

  datatype MountCommand = MountCommand(fstype: string, options: seq<string>, operands: seq<string>)

  predicate IsFlag(s: string) {
    s != "" && s[0] == '-'
  }

  /** mount's own reading: `-t` and `-o` take the next argument, the options split at commas;
      whatever is no flag is an operand. */
  function Read(args: seq<string>): MountCommand {
    if args == [] then MountCommand("", [], [])
    else if args[0] == "-t" && |args| > 1 then Read(args[2..]).(fstype := args[1])
    else if args[0] == "-o" && |args| > 1 then Read(args[2..]).(options := Split(args[1], ','))
    else
      var rest := Read(args[1..]);
      if IsFlag(args[0]) then rest else rest.(operands := [args[0]] + rest.operands)
  }

  lemma ReadOperands(source: string, target: string)
    requires !IsFlag(source) && !IsFlag(target)
    ensures Read(if source == "" then [target] else [source, target])
            == MountCommand("", [], if source == "" then [target] else [source, target])
  {
    assert [target][1..] == [] && [source, target][1..] == [target];
    assert Read([target]) == MountCommand("", [], [target]);
  }

  lemma ReadType(fstype: string, rest: seq<string>)
    ensures Read(["-t", fstype] + rest) == Read(rest).(fstype := fstype)
  {
  }

  lemma ReadOptions(joined: string, rest: seq<string>)
    ensures Read(["-o", joined] + rest) == Read(rest).(options := Split(joined, ','))
  {
  }

  /** mount reads back the filesystem type, every option by itself, and source before target, as long
      as no option holds a comma and neither operand looks like a flag. */
  lemma ReadsBack(source: string, target: string, fstype: string, options: seq<string>)
    requires !IsFlag(source) && !IsFlag(target)
    requires forall i :: 0 <= i < |options| ==> Free(options[i], ',')
    ensures Read(Args(source, target, fstype, options))
            == MountCommand(fstype, options, if source == "" then [target] else [source, target])
  {
    hide Split, Join, Read;
    var operands := if source == "" then [target] else [source, target];
    ReadOperands(source, target);
    var joined := Join(options, ',');
    var withOptions := if options == [] then operands else ["-o", joined] + operands;
    if options != [] {
      SplitJoin(options, ',');
      ReadOptions(joined, operands);
    }
    ReadType(fstype, withOptions);
    assert Args(source, target, fstype, options) == if fstype == "" then withOptions else ["-t", fstype] + withOptions;
  }

  /** An option holding a comma is read as several: nothing keeps it together. */
  lemma CommaSplitsOption(a: string, b: string)
    requires Free(a, ',') && Free(b, ',')
    ensures Read(Args("s", "t", "", [a + "," + b])).options == [a, b]
  {
    hide Split;
    var args := Args("s", "t", "", [a + "," + b]);
    assert args == ["-o", a + "," + b, "s", "t"];
    SplitConcat(a, b, ',');
    SplitSingle(a, ',');
    SplitSingle(b, ',');
    assert Split(a + "," + b, ',') == [a, b];
  }
}
