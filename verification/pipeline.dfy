/** The script's main sequence: list the directory, retag `.txt` names, inspect
    encodings, convert what is not Shift_JIS. A pass that raises stops the
    run, so conversion happens only after inspection went through. */
module Pipeline {
  import opened Base
  import opened PyStr
  import opened PyPath
  import opened Listing
  import opened Retagging
  import opened Inspection
  import opened Conversion

  /** Everything a run decides: the working set it listed, the rename calls,
      the inspection batch and, when inspection did not raise, the conversion
      batch. */
  datatype RunResult = RunResult(
    workingSet: seq<string>,
    renames: seq<Rename>,
    inspection: Batch<Record, InspectError>,
    conversion: Option<Batch<Record, ConvertError>>)

  /** The main sequence as written: inspection and conversion use the names
      listed at start-up, which the retagging pass never updates. */
  function RunAsWritten(dirPath: string, entries: seq<string>, isFile: string -> bool,
                        detect: seq<string> -> Process, convert: string -> int): (r: RunResult)
    ensures r.workingSet == FileNames(dirPath, entries, isFile)
    ensures r.renames == RenamePlan(r.workingSet)
    ensures r.inspection == InspectAll(r.workingSet, detect)
    ensures r.conversion.Some? <==> r.inspection.Completed?
    ensures r.conversion.Some? ==> r.conversion.value == ConvertAll(r.inspection.done, convert)
  {
    var names := FileNames(dirPath, entries, isFile);
    var inspection := InspectAll(names, detect);
    RunResult(names, RenamePlan(names), inspection,
              if inspection.Completed? then Some(ConvertAll(inspection.done, convert)) else None)
  }

  /** The main sequence as intended: inspection reads the working set as the
      retagging pass left it, so every command names a file that still exists
      under that name. */
  function Run(dirPath: string, entries: seq<string>, isFile: string -> bool,
               detect: seq<string> -> Process, convert: string -> int): (r: RunResult)
    ensures r.workingSet == FileNames(dirPath, entries, isFile)
    ensures r.renames == RenamePlan(r.workingSet)
    ensures r.inspection == InspectAll(RetagAll(r.workingSet), detect)
    ensures r.conversion.Some? <==> r.inspection.Completed?
    ensures r.conversion.Some? ==> r.conversion.value == ConvertAll(r.inspection.done, convert)
  {
    var names := FileNames(dirPath, entries, isFile);
    var inspection := InspectAll(RetagAll(names), detect);
    RunResult(names, RenamePlan(names), inspection,
              if inspection.Completed? then Some(ConvertAll(inspection.done, convert)) else None)
  }

  /** Retagging keeps a name plain: the new name is a prefix of the old one
      followed by `.csv`. */
  lemma RetaggedPlain(name: string)
    requires PlainName(name)
    ensures PlainName(Retagged(name))
  {
    if IsTxtName(name) {
      var root := Splitext(name).0;
      PrefixPlain(root, Splitext(name).1);
      CsvPlain();
      NoSpaceConcat(root, CSV);
      assert Retagged(name) == root + CSV;
    }
  }

  /** The front part of a whitespace-free text is whitespace-free. */
  lemma PrefixPlain(a: string, b: string)
    requires NoSpace(a + b)
    ensures NoSpace(a)
  {
    assert forall j :: 0 <= j < |a| ==> a[j] == (a + b)[j];
  }

  lemma CsvPlain()
    ensures NoSpace(CSV) && |CSV| > 0
  {
    assert forall j :: 0 <= j < |CSV| ==> CSV[j] in {'.', 'c', 's', 'v'};
  }

  /** As written, for plain listing entries, every pair recorded for a
      retagged file names the file as it was before the rename, so the pair (and the conversion it triggers)
      addresses a name the retagging pass has moved away. */
  lemma StaleNamesAsWritten(dirPath: string, entries: seq<string>, isFile: string -> bool,
                            detect: seq<string> -> Process, convert: string -> int)
    requires forall e :: e in entries ==> PlainName(e)
    ensures var r := RunAsWritten(dirPath, entries, isFile, detect, convert);
      forall i :: 0 <= i < |r.inspection.done| && IsTxtName(r.workingSet[i]) ==>
        && r.inspection.done[i].name == r.workingSet[i]
        && r.inspection.done[i].name != RetagAll(r.workingSet)[i]
  {
    var r := RunAsWritten(dirPath, entries, isFile, detect, convert);
    var names := r.workingSet;
    assert forall i :: 0 <= i < |names| ==> names[i] in names;
    ExactAttribution(names, detect);
    forall i | 0 <= i < |r.inspection.done| && IsTxtName(names[i])
      ensures r.inspection.done[i].name != RetagAll(names)[i]
    {
      var n := names[i];
      assert !IsTxtName(Retagged(n));
    }
  }

  /** A concrete run: a directory where only `a.txt` is a regular file. The
      rename moves it to `a.csv`, yet the detector command still names
      `a.txt`, which is no longer in the working set. */
  lemma StaleNameWitness(n: string, isFile: string -> bool, detect: seq<string> -> Process, convert: string -> int)
    requires n == "a.txt" && isFile("./a.txt")
    ensures var r := RunAsWritten("./", [n], isFile, detect, convert);
      && r.workingSet == [n]
      && r.renames == [Rename(n, "a.csv")]
      && n !in RetagAll(r.workingSet)
      && (r.inspection.Completed? ==> r.inspection.done[0].name == n)
      && (r.inspection.Aborted? ==> r.inspection.error.command == "nkf -g a.txt")
  {
    ATxtRetagged(n);
    StaleSingleName(n, isFile, detect, convert);
  }

  /** A listing of one plain `.txt` file: the run renames it, and inspection
      still records, or fails on, the old name. */
  lemma StaleSingleName(n: string, isFile: string -> bool, detect: seq<string> -> Process, convert: string -> int)
    requires PlainName(n) && IsTxtName(n) && isFile("./" + n)
    ensures var r := RunAsWritten("./", [n], isFile, detect, convert);
      && r.workingSet == [n]
      && r.renames == [Rename(n, Retagged(n))]
      && n !in RetagAll(r.workingSet)
      && (r.inspection.Completed? ==> r.inspection.done[0].name == n)
      && (r.inspection.Aborted? ==> r.inspection.error.command == CheckCommand(n))
  {
    SingleListing(n, isFile);
    SingleRetag(n);
    SingleInspection(n, detect);
  }

  lemma SingleListing(n: string, isFile: string -> bool)
    requires isFile("./" + n)
    ensures FileNames("./", [n], isFile) == [n]
  {
    FilterSingleton(IsListedFile("./", isFile), n);
    assert IsListedFile("./", isFile)(n);
  }

  lemma SingleRetag(n: string)
    requires IsTxtName(n)
    ensures RenamePlan([n]) == [Rename(n, Retagged(n))]
    ensures n !in RetagAll([n])
  {
    assert RenamePlan([n]) == [Rename(n, Retagged(n))] by {
      FilterSingleton(IsTxtName, n);
      assert RenamesOf([n])[0] == Rename(n, Retagged(n));
    }
    assert n !in RetagAll([n]) by {
      var after := RetagAll([n]);
      assert |after| == 1 && after[0] != n;
    }
  }

  lemma SingleInspection(n: string, detect: seq<string> -> Process)
    requires PlainName(n)
    ensures var b := InspectAll([n], detect);
      && (b.Completed? ==> b.done[0].name == n)
      && (b.Aborted? ==> b.error.command == CheckCommand(n))
  {
    ExactAttribution([n], detect);
  }

  /** `a.txt` is a plain name the pass retags to `a.csv`. */
  lemma ATxtRetagged(s: string)
    requires s == "a.txt"
    ensures IsTxtName(s) && PlainName(s)
    ensures Retagged(s) == "a.csv"
    ensures "./" + s == "./a.txt" && CheckCommand(s) == "nkf -g a.txt"
  {
    ATxtShape(s);
    ATxtSuffixSwap(s);
  }

  lemma ATxtSuffixSwap(s: string)
    requires s == "a.txt"
    requires '\n' !in s && |s| >= 5 && EndsWith(s, TXT) && s[..|s| - 4] == "a"
    ensures IsTxtName(s) && Retagged(s) == "a.csv"
  {
    ABasename(s[..|s| - 4]);
    NewlineFreeTxtName(s);
    RetagSwapsSuffix(s);
    ACsv(s[..|s| - 4]);
  }

  lemma ATxtShape(s: string)
    requires s == "a.txt"
    ensures '\n' !in s && |s| >= 5 && EndsWith(s, TXT) && PlainName(s) && s[..|s| - 4] == "a"
    ensures "./" + s == "./a.txt" && CheckCommand(s) == "nkf -g a.txt"
  {
    assert s[1..] == TXT;
    assert forall j :: 0 <= j < |s| ==> s[j] in {'a', '.', 't', 'x'};
    assert s[..1] == "a";
  }

  /** The stem `a` has a last component that is not all dots. */
  lemma ABasename(a: string)
    requires a == "a"
    ensures !AllDots(Basename(a))
  {
    assert RFind(a, '/') == -1;
    assert Basename(a) == a;
  }

  lemma ACsv(a: string)
    requires a == "a"
    ensures a + CSV == "a.csv"
  {
  }

  /** Retagging a working set of plain names leaves every name plain. */
  lemma RetagAllPlain(names: seq<string>)
    requires forall e :: e in names ==> PlainName(e)
    ensures forall i :: 0 <= i < |names| ==> PlainName(RetagAll(names)[i])
  {
    forall i | 0 <= i < |names|
      ensures PlainName(RetagAll(names)[i])
    {
      assert names[i] in names;
      RetaggedPlain(names[i]);
    }
  }

  /** Inspecting a retagged working set of plain names records each file
      under its new name, and a failing detector run names the next one. */
  lemma InspectsRetagged(names: seq<string>, detect: seq<string> -> Process)
    requires forall e :: e in names ==> PlainName(e)
    ensures var current := RetagAll(names);
      var b := InspectAll(current, detect);
      && (forall i :: 0 <= i < |b.done| ==> b.done[i].name == current[i])
      && (b.Aborted? ==> b.error.command == CheckCommand(current[|b.done|]))
  {
    RetagAllPlain(names);
    ExactAttribution(RetagAll(names), detect);
  }

  /** As intended, for plain listing entries, each recorded pair names its
      file as retagging left it, and so does the command of a failing
      detector run; the records handed to conversion therefore all name
      files of the current working set. */
  lemma RunInspectsCurrentNames(dirPath: string, entries: seq<string>, isFile: string -> bool,
                                detect: seq<string> -> Process, convert: string -> int)
    requires forall e :: e in entries ==> PlainName(e)
    ensures var r := Run(dirPath, entries, isFile, detect, convert);
      var current := RetagAll(r.workingSet);
      && (forall i :: 0 <= i < |r.inspection.done| ==> r.inspection.done[i].name == current[i])
      && (r.inspection.Aborted? ==> r.inspection.error.command == CheckCommand(current[|r.inspection.done|]))
      && (r.conversion.Some? ==> forall rec :: rec in r.conversion.value.done ==> rec.name in current)
  {
    var r := Run(dirPath, entries, isFile, detect, convert);
    var current := RetagAll(r.workingSet);
    InspectsRetagged(r.workingSet, detect);
    if r.conversion.Some? {
      var recs := r.inspection.done;
      ConvertedWereRecorded(recs, convert);
      forall rec | rec in r.conversion.value.done
        ensures rec.name in current
      {
        var j :| 0 <= j < |recs| && recs[j] == rec;
        assert current[j] in current;
      }
    }
  }
}
