/** `CheckFormat.change_encoding`: walk `cmd_ret` in order; a record whose
    detector output does not start with `Shift_JIS` is converted in place by
    running `nkf -s --overwrite <name>`, a record whose output does is
    skipped. The first conversion that fails ends the pass with an exception. */
module Conversion {
  import opened Base
  import opened PyStr
  import opened Inspection

  /** The label prefix of records the pass leaves alone (case-sensitive). */
  const SHIFT_JIS := "Shift_JIS"

  /** `NKF_CMD_CONVERT`: rewrite a file in place as Shift_JIS. */
  const CONVERT_PREFIX := "nkf -s --overwrite "

  /** `check_call` raising CalledProcessError for a non-zero exit status. */
  datatype ConvertError = ConverterFailed(command: string, returnCode: int)

  /** The test at `check_format.py` line 108: the recorded output does not
      start with `Shift_JIS`. */
  predicate NeedsConversion(rec: Record)
  {
    !StartsWith(rec.encoding, SHIFT_JIS)
  }

  /** The records the pass converts, in `cmd_ret` order. */
  function Selected(cmdRet: seq<Record>): (r: seq<Record>)
    ensures forall rec :: rec in r <==> rec in cmdRet && !StartsWith(rec.encoding, SHIFT_JIS)
  {
    Filter(NeedsConversion, cmdRet)
  }

  /** Selection keeps `cmd_ret` order: the selected records of a prefix come
      before those of the rest. */
  lemma SelectedOrder(xs: seq<Record>, ys: seq<Record>)
    ensures Selected(xs + ys) == Selected(xs) + Selected(ys)
  {
    FilterConcat(NeedsConversion, xs, ys);
  }

  /** The converter command for one recorded name. */
  function ConvertCommand(name: string): string
  {
    CONVERT_PREFIX + name
  }

  /** The pass as a fail-fast batch over `cmd_ret`. `convert` gives the exit
      status of the converter command. The converted records are a prefix of
      the selected ones, each converted successfully; on failure, the next
      selected record is the one whose command failed. */
  function ConvertAll(cmdRet: seq<Record>, convert: string -> int): (b: Batch<Record, ConvertError>)
    ensures |b.done| <= |Selected(cmdRet)|
    ensures b.done == Selected(cmdRet)[..|b.done|]
    ensures forall i :: 0 <= i < |b.done| ==> convert(ConvertCommand(b.done[i].name)) == 0
    ensures b.Completed? ==> b.done == Selected(cmdRet)
    ensures b.Aborted? ==> |b.done| < |Selected(cmdRet)|
    ensures b.Aborted? ==>
      var failed := ConvertCommand(Selected(cmdRet)[|b.done|].name);
      b.error == ConverterFailed(failed, convert(failed)) && b.error.returnCode != 0
    decreases |cmdRet|
  {
    if |cmdRet| == 0 then Completed([])
    else
      var init := cmdRet[..|cmdRet| - 1];
      var rec := cmdRet[|cmdRet| - 1];
      assert Selected(cmdRet) == Selected(init) + (if NeedsConversion(rec) then [rec] else []);
      var b := ConvertAll(init, convert);
      if b.Aborted? then b
      else if !NeedsConversion(rec) then b
      else
        var cmd := ConvertCommand(rec.name);
        var returnCode := convert(cmd);
        if returnCode != 0 then Aborted(b.done, ConverterFailed(cmd, returnCode))
        else Completed(b.done + [rec])
  }

  /** Once a conversion has failed on a prefix of `cmd_ret`, later records
      change nothing. */
  lemma {:induction false} ConvertAbortSticks(cmdRet: seq<Record>, convert: string -> int, k: nat)
    requires k <= |cmdRet|
    requires ConvertAll(cmdRet[..k], convert).Aborted?
    ensures ConvertAll(cmdRet, convert) == ConvertAll(cmdRet[..k], convert)
    decreases |cmdRet|
  {
    if k < |cmdRet| {
      var init := cmdRet[..|cmdRet| - 1];
      assert init[..k] == cmdRet[..k];
      ConvertAbortSticks(init, convert, k);
    } else {
      assert cmdRet[..k] == cmdRet;
    }
  }

  /** A record labelled `Shift_JIS...` never reaches the converter, whether
      the pass completes or stops early. */
  lemma ShiftJisNeverConverted(cmdRet: seq<Record>, convert: string -> int)
    ensures var b := ConvertAll(cmdRet, convert);
      && (forall i :: 0 <= i < |b.done| ==> !StartsWith(b.done[i].encoding, SHIFT_JIS))
      && (b.Aborted? ==> !StartsWith(Selected(cmdRet)[|b.done|].encoding, SHIFT_JIS))
  {
    var b := ConvertAll(cmdRet, convert);
    var sel := Selected(cmdRet);
    forall i | 0 <= i < |b.done|
      ensures !StartsWith(b.done[i].encoding, SHIFT_JIS)
    {
      assert b.done[i] == sel[i];
      assert sel[i] in sel;
    }
    if b.Aborted? {
      assert sel[|b.done|] in sel;
    }
  }

  /** Every converted record is one of the records the pass was given. */
  lemma ConvertedWereRecorded(cmdRet: seq<Record>, convert: string -> int)
    ensures forall rec :: rec in ConvertAll(cmdRet, convert).done ==> rec in cmdRet
  {
    var b := ConvertAll(cmdRet, convert);
    forall rec | rec in b.done
      ensures rec in cmdRet
    {
      var k :| 0 <= k < |b.done| && b.done[k] == rec;
      assert rec in Selected(cmdRet) by {
        assert b.done[k] == Selected(cmdRet)[k];
      }
    }
  }

  /** The loop of `change_encoding`: it converts exactly the records of the
      batch and raises the batch's error when it stops early. */
  method ChangeEncoding(cmdRet: seq<Record>, convert: string -> int)
    returns (converted: seq<Record>, raised: Option<ConvertError>)
    ensures var b := ConvertAll(cmdRet, convert);
      && converted == b.done
      && raised == (if b.Aborted? then Some(b.error) else None)
  {
    converted := [];
    var i := 0;
    while i < |cmdRet|
      invariant i <= |cmdRet|
      invariant ConvertAll(cmdRet[..i], convert).Completed?
      invariant converted == ConvertAll(cmdRet[..i], convert).done
    {
      var retTuple := cmdRet[i];
      assert cmdRet[..i + 1][..i] == cmdRet[..i];
      if !StartsWith(retTuple.encoding, SHIFT_JIS) {
        var cmd := CONVERT_PREFIX + retTuple.name;
        var returnCode := convert(cmd);
        if returnCode != 0 {
          ConvertAbortSticks(cmdRet, convert, i + 1);
          return converted, Some(ConverterFailed(cmd, returnCode));
        }
        converted := converted + [retTuple];
      }
      i := i + 1;
    }
    assert cmdRet[..i] == cmdRet;
    raised := None;
  }
}
