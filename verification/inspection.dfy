/** `CheckFormat.check_encoding`: for every working-set name, in order, build
    the command `nkf -g <name>`, split it into an argument vector, take the
    file name back out of it as argument 2, run the detector on the vector and
    append `(file name, detector output)` to `cmd_ret`. The first failure ends
    the pass with an exception, leaving the pairs recorded so far. */
module Inspection {
  import opened Base
  import opened PyStr

  /** `NKF_CMD_CHKENCODE`: the command prefix that asks nkf to guess an encoding. */
  const CHECK_PREFIX := "nkf -g "

  /** What `check_output` sees of a finished detector process. */
  datatype Process = Process(returnCode: int, stdout: string)

  /** One `(file_name, cmd_result)` pair of `cmd_ret`. */
  datatype Record = Record(name: string, encoding: string)

  /** The exceptions the pass raises. */
  datatype InspectError =
    | NoFileName(command: string)                        // `cmd_list[2]` raises IndexError
    | DetectorFailed(command: string, returnCode: int)   // `check_output` raises CalledProcessError

  /** A name `check_encoding` attributes exactly: non-empty, no whitespace. */
  predicate PlainName(name: string)
  {
    |name| > 0 && NoSpace(name)
  }

  /** The detector command for one working-set name. */
  function CheckCommand(name: string): string
  {
    CHECK_PREFIX + name
  }

  /** The argument vector is `nkf`, `-g`, then the whitespace-separated
      fragments of the name. */
  lemma CheckArgv(name: string)
    ensures Split(CheckCommand(name)) == ["nkf", "-g"] + Split(name)
  {
    CheckWords();
    CheckCommandShape(name);
    TwoWordsThen("nkf", "-g", name);
  }

  lemma CheckWords()
    ensures |"nkf"| > 0 && NoSpace("nkf") && |"-g"| > 0 && NoSpace("-g")
  {
    var nkf, g := "nkf", "-g";
    assert forall i :: 0 <= i < |nkf| ==> nkf[i] in {'n', 'k', 'f'};
    assert forall i :: 0 <= i < |g| ==> g[i] in {'-', 'g'};
  }

  lemma CheckCommandShape(name: string)
    ensures CheckCommand(name) == ("nkf" + " ") + (("-g" + " ") + name)
  {
  }

  /** Two words, each followed by a space, then any text: the words come
      first in the argument vector, then the fragments of the text. */
  lemma TwoWordsThen(a: string, b: string, rest: string)
    requires |a| > 0 && NoSpace(a) && |b| > 0 && NoSpace(b)
    ensures Split((a + " ") + ((b + " ") + rest)) == [a, b] + Split(rest)
  {
    var a', b' := a + " ", b + " ";
    assert IsSpace(a'[|a'| - 1]) && IsSpace(b'[|b'| - 1]);
    calc {
      Split(a' + (b' + rest));
      { SplitAppend(a', b' + rest); }
      Split(a') + Split(b' + rest);
      { SplitAppend(b', rest); }
      Split(a') + (Split(b') + Split(rest));
      { SplitWordSpace(a); SplitWordSpace(b); }
      [a] + ([b] + Split(rest));
      [a, b] + Split(rest);
    }
  }

  /** The name `check_encoding` records for a working-set name: argument 2 of
      the split command, or nothing when the vector is too short and the
      lookup raises. */
  function RecordedName(name: string): Option<string>
  {
    var argv := Split(CheckCommand(name));
    if |argv| > 2 then Some(argv[2]) else None
  }

  /** Attribution: the recorded name is the file's name exactly when that name
      is non-empty and contains no whitespace, and then the detector is run on
      exactly `nkf -g <name>`. A name that is all whitespace has no argument 2;
      any other name is represented by its first whitespace-separated fragment. */
  lemma Attribution(name: string)
    ensures RecordedName(name) == Some(name) <==> |name| > 0 && NoSpace(name)
    ensures |name| > 0 && NoSpace(name) ==> Split(CheckCommand(name)) == ["nkf", "-g", name]
    ensures RecordedName(name) == None <==> AllSpace(name)
    ensures RecordedName(name).Some? ==> IsFirstFragment(RecordedName(name).value, name)
  {
    CheckArgv(name);
    var frags := Split(name);
    SplitEmptyIff(name);
    SplitSingletonIff(name);
    if frags != [] {
      SplitFirst(name);
      assert RecordedName(name) == Some(frags[0]);
      if frags[0] == name {
        assert |name| > 0 && NoSpace(name);
      }
    }
  }

  /** One iteration of the loop: split the command, recover the file name,
      run the detector on the argument vector and pair the name with the
      detector's output. */
  function InspectOne(name: string, detect: seq<string> -> Process): (r: Result<Record, InspectError>)
    ensures r.Ok? ==> Some(r.value.name) == RecordedName(name)
    ensures r.Ok? ==> detect(Split(CheckCommand(name))) == Process(0, r.value.encoding)
    ensures r.Err? ==> r.error.command == CheckCommand(name)
    ensures r == Err(NoFileName(CheckCommand(name))) <==> RecordedName(name).None?
    ensures r.Err? && r.error.DetectorFailed? ==> r.error.returnCode == detect(Split(CheckCommand(name))).returnCode != 0
  {
    var cmd := CheckCommand(name);
    var argv := Split(cmd);
    if |argv| <= 2 then Err(NoFileName(cmd))
    else
      var p := detect(argv);
      if p.returnCode != 0 then Err(DetectorFailed(cmd, p.returnCode))
      else Ok(Record(argv[2], p.stdout))
  }

  /** The whole pass as a fail-fast batch: one record per name, in order,
      until the first name whose step fails. The records kept on failure are
      exactly those of the names strictly before the failing one. */
  function InspectAll(names: seq<string>, detect: seq<string> -> Process): (b: Batch<Record, InspectError>)
    ensures |b.done| <= |names|
    ensures forall i :: 0 <= i < |b.done| ==> InspectOne(names[i], detect) == Ok(b.done[i])
    ensures b.Completed? ==> |b.done| == |names|
    ensures b.Aborted? ==> |b.done| < |names| && InspectOne(names[|b.done|], detect) == Err(b.error)
    decreases |names|
  {
    if |names| == 0 then Completed([])
    else
      var init := names[..|names| - 1];
      var b := InspectAll(init, detect);
      if b.Aborted? then b
      else
        match InspectOne(names[|names| - 1], detect)
        case Err(e) => Aborted(b.done, e)
        case Ok(rec) => Completed(b.done + [rec])
  }

  /** One more name extends a completed prefix by that name's step. */
  lemma InspectStep(names: seq<string>, detect: seq<string> -> Process, i: nat)
    requires i < |names| && InspectAll(names[..i], detect).Completed?
    ensures var prev := InspectAll(names[..i], detect).done;
      InspectAll(names[..i + 1], detect) ==
        match InspectOne(names[i], detect)
        case Err(e) => Aborted(prev, e)
        case Ok(rec) => Completed(prev + [rec])
  {
    assert names[..i + 1][..i] == names[..i];
  }

  /** Once the pass has failed on a prefix of the working set, later names
      change nothing. */
  lemma {:induction false} AbortSticks(names: seq<string>, detect: seq<string> -> Process, k: nat)
    requires k <= |names|
    requires InspectAll(names[..k], detect).Aborted?
    ensures InspectAll(names, detect) == InspectAll(names[..k], detect)
    decreases |names|
  {
    if k < |names| {
      var init := names[..|names| - 1];
      assert init[..k] == names[..k];
      AbortSticks(init, detect, k);
    } else {
      assert names[..k] == names;
    }
  }

  /** When every working-set name is non-empty and free of whitespace, each
      recorded pair carries its own file's name and the label the detector
      printed for that file, and the pass can only fail in the detector. */
  lemma ExactAttribution(names: seq<string>, detect: seq<string> -> Process)
    requires forall i :: 0 <= i < |names| ==> PlainName(names[i])
    ensures var b := InspectAll(names, detect);
      && (forall i :: 0 <= i < |b.done| ==>
            b.done[i] == Record(names[i], detect(["nkf", "-g", names[i]]).stdout))
      && (b.Aborted? ==> b.error.DetectorFailed? && b.error.command == CheckCommand(names[|b.done|]))
  {
    var b := InspectAll(names, detect);
    forall i | 0 <= i < |b.done|
      ensures b.done[i] == Record(names[i], detect(["nkf", "-g", names[i]]).stdout)
    {
      Attribution(names[i]);
    }
    if b.Aborted? {
      Attribution(names[|b.done|]);
    }
  }

  /** The loop of `check_encoding`: it appends to `cmdRet` exactly the records
      of the batch, and raises the batch's error when it stops early. */
  method CheckEncoding(fileNames: seq<string>, detect: seq<string> -> Process, cmdRet: seq<Record>)
    returns (cmdRet': seq<Record>, raised: Option<InspectError>)
    ensures var b := InspectAll(fileNames, detect);
      && cmdRet' == cmdRet + b.done
      && raised == (if b.Aborted? then Some(b.error) else None)
  {
    var cmds := seq(|fileNames|, i requires 0 <= i < |fileNames| => CheckCommand(fileNames[i]));
    cmdRet' := cmdRet;
    var i := 0;
    while i < |cmds|
      invariant i <= |cmds|
      invariant InspectAll(fileNames[..i], detect).Completed?
      invariant cmdRet' == cmdRet + InspectAll(fileNames[..i], detect).done
    {
      var cmd := cmds[i];
      var cmdList := Split(cmd);
      InspectStep(fileNames, detect, i);
      if |cmdList| <= 2 {
        AbortSticks(fileNames, detect, i + 1);
        return cmdRet', Some(NoFileName(cmd));
      }
      var fileName := cmdList[2];
      var p := detect(cmdList);
      if p.returnCode != 0 {
        AbortSticks(fileNames, detect, i + 1);
        return cmdRet', Some(DetectorFailed(cmd, p.returnCode));
      }
      cmdRet' := cmdRet' + [Record(fileName, p.stdout)];
      i := i + 1;
    }
    assert fileNames[..i] == fileNames;
    raised := None;
  }
}
