/** `CheckFormat.change_format_to_csv`: every working-set name the pattern
    `.+\.txt$` finds a match in is renamed to its `splitext` root followed by
    `.csv`. The pass decides each name on its own, so it renames without
    looking at what else is in the working set. */
module Retagging {
  import opened Base
  import opened PyStr
  import opened PyPath

  const TXT := ".txt"
  const CSV := ".csv"

  /** Python's `$` without MULTILINE holds at the end of the text and just
      before a newline that ends it. */
  predicate DollarAt(s: string, e: int)
  {
    0 <= e && (e == |s| || (e + 1 == |s| && s[e] == '\n'))
  }

  /** The pattern `.+\.txt$` matches `s[a..e]`: `.+` takes the non-empty,
      newline-free `s[a..e - 4]`, `\.txt` takes `s[e - 4..e]`, and `$` holds at `e`. */
  ghost predicate MatchSpan(s: string, a: int, e: int)
  {
    && 0 <= a && a + 5 <= e <= |s|
    && (forall i :: a <= i < e - 4 ==> s[i] != '\n')
    && s[e - 4..e] == TXT
    && DollarAt(s, e)
  }

  /** `re.compile(".+\.txt$").search(s)` finds a match. */
  ghost predicate PatternFound(s: string)
  {
    exists a, e :: MatchSpan(s, a, e)
  }

  /** `.txt` ends at `e`, preceded by a character that `.` accepts. */
  predicate TxtEndsAt(s: string, e: int)
  {
    5 <= e <= |s| && s[e - 4..e] == TXT && s[e - 5] != '\n'
  }

  /** The pass's test: `.txt` ends the name, or ends it but for one final
      newline, and is preceded by a character other than a newline. */
  predicate IsTxtName(s: string)
  {
    || TxtEndsAt(s, |s|)
    || (|s| > 0 && s[|s| - 1] == '\n' && TxtEndsAt(s, |s| - 1))
  }

  /** The two-position test decides the regular-expression search exactly. */
  lemma IsTxtNameIffPatternFound(s: string)
    ensures IsTxtName(s) <==> PatternFound(s)
  {
    if IsTxtName(s) {
      var e := if TxtEndsAt(s, |s|) then |s| else |s| - 1;
      assert MatchSpan(s, e - 5, e);
    }
    if PatternFound(s) {
      var a, e :| MatchSpan(s, a, e);
      assert s[e - 5] != '\n';
      assert TxtEndsAt(s, e);
    }
  }

  /** For a name without newlines the test is: at least one character, then
      `.txt` at the very end. A bare `.txt` has nothing before the dot for `.+`. */
  lemma NewlineFreeTxtName(s: string)
    requires '\n' !in s
    ensures IsTxtName(s) <==> |s| >= 5 && EndsWith(s, TXT)
    ensures !IsTxtName(TXT)
  {
    if |s| >= 5 {
      assert s[|s| - 5] in s;
    }
  }

  /** A name that ends in `.csv` never matches the pattern. */
  lemma CsvNameIsNotTxt(r: string)
    requires EndsWith(r, CSV)
    ensures !IsTxtName(r)
  {
    assert r[|r| - 1] == CSV[3];
    if |r| >= 4 {
      assert r[|r| - 4..] == CSV;
      assert r[|r| - 4..][1] != TXT[1];
    }
  }

  /** The name an entry carries after the pass: the `splitext` root followed
      by `.csv` when the pattern matches, the name itself otherwise. */
  function Retagged(s: string): (r: string)
    ensures IsTxtName(s) ==> EndsWith(r, CSV) && !IsTxtName(r)
    ensures !IsTxtName(s) ==> r == s
  {
    if IsTxtName(s) then
      var r := Splitext(s).0 + CSV;
      assert r[|r| - 4..] == CSV;
      CsvNameIsNotTxt(r);
      r
    else s
  }

  /** Where `.txt` ends a newline-free name, `splitext` cuts at its dot unless
      everything between the last `/` and that dot is a dot. */
  lemma TxtExtStart(s: string)
    requires |s| >= 5 && EndsWith(s, TXT)
    ensures var stem := s[..|s| - 4];
      ExtStart(s) == if AllDots(Basename(stem)) then |s| else |s| - 4
  {
    var k := |s| - 4;
    var stem := s[..k];
    assert s[k..] == TXT;
    assert forall j :: k < j < |s| ==> s[j] == TXT[j - k];
    RFindIsLast(s, '.', k);
    RFindPrefix(s, '/', k);
    var sepIndex := RFind(s, '/');
    assert Basename(stem) == s[sepIndex + 1..k];
  }

  /** A newline-free `.txt` name whose stem has a character other than a dot
      in its last component has its `.txt` swapped for `.csv`. */
  lemma RetagSwapsSuffix(s: string)
    requires '\n' !in s && |s| >= 5 && EndsWith(s, TXT)
    requires !AllDots(Basename(s[..|s| - 4]))
    ensures Retagged(s) == s[..|s| - 4] + CSV
  {
    NewlineFreeTxtName(s);
    TxtExtStart(s);
  }

  /** When the stem is nothing but dots, `splitext` finds no extension and
      `.csv` is appended to the whole name: `..txt` becomes `..txt.csv`. */
  lemma RetagAllDotStem(s: string)
    requires '\n' !in s && |s| >= 5 && EndsWith(s, TXT)
    requires AllDots(Basename(s[..|s| - 4]))
    ensures Retagged(s) == s + CSV
  {
    NewlineFreeTxtName(s);
    TxtExtStart(s);
  }

  /** The names the files carry after the pass, entry by entry: no name
      matches the pattern any more, a name is kept exactly when it did not
      match, and every matching name now ends in `.csv`. */
  function RetagAll(names: seq<string>): (r: seq<string>)
    ensures |r| == |names|
    ensures forall i :: 0 <= i < |r| ==> !IsTxtName(r[i])
    ensures forall i :: 0 <= i < |r| ==> (r[i] == names[i] <==> !IsTxtName(names[i]))
    ensures forall i :: 0 <= i < |r| && IsTxtName(names[i]) ==> EndsWith(r[i], CSV)
  {
    seq(|names|, i requires 0 <= i < |names| => Retagged(names[i]))
  }

  /** One `os.rename(from, to)` call. */
  datatype Rename = Rename(from: string, to: string)

  /** The rename calls made for the names in `sources`, one each, in order.
      For matching sources, every call moves a name to one ending in `.csv`
      that the pattern no longer matches. */
  function RenamesOf(sources: seq<string>): (r: seq<Rename>)
    ensures |r| == |sources|
    ensures forall i :: 0 <= i < |r| ==> r[i].from == sources[i]
    ensures forall i :: 0 <= i < |r| && IsTxtName(sources[i]) ==>
      r[i].to != r[i].from && EndsWith(r[i].to, CSV) && !IsTxtName(r[i].to)
  {
    seq(|sources|, i requires 0 <= i < |sources| => Rename(sources[i], Retagged(sources[i])))
  }

  /** One more source adds its rename call at the end. */
  lemma RenamesOfSnoc(sources: seq<string>, fi: string)
    ensures RenamesOf(sources + [fi]) == RenamesOf(sources) + [Rename(fi, Retagged(fi))]
  {
    var a := RenamesOf(sources + [fi]);
    var b := RenamesOf(sources) + [Rename(fi, Retagged(fi))];
    assert |a| == |b|;
    forall i | 0 <= i < |a|
      ensures a[i] == b[i]
    {
      if i < |sources| {
        assert (sources + [fi])[i] == sources[i];
      }
    }
  }

  /** The rename calls of the pass: one per matching name, in working-set order. */
  function RenamePlan(names: seq<string>): seq<Rename>
  {
    RenamesOf(Filter(IsTxtName, names))
  }

  /** The pass renames `from` to `to` exactly when `from` is a matching name
      of the working set and `to` is its retagged name. */
  lemma RenamePlanIff(names: seq<string>, from: string, to: string)
    ensures Rename(from, to) in RenamePlan(names)
        <==> from in names && IsTxtName(from) && to == Retagged(from)
  {
    var sources := Filter(IsTxtName, names);
    var plan := RenamePlan(names);
    if Rename(from, to) in plan {
      var i :| 0 <= i < |plan| && plan[i] == Rename(from, to);
      assert sources[i] in sources;
    }
    if from in names && IsTxtName(from) && to == Retagged(from) {
      assert from in sources;
      var i :| 0 <= i < |sources| && sources[i] == from;
      assert plan[i] == Rename(from, to);
    }
  }

  /** The names after the pass are the targets of the pass's renames: every
      matching name is renamed to its entry in `RetagAll`, and every rename
      call moves a working-set name to its entry there. */
  lemma RetagAllMatchesPlan(names: seq<string>)
    ensures forall i :: 0 <= i < |names| && IsTxtName(names[i]) ==>
      Rename(names[i], RetagAll(names)[i]) in RenamePlan(names)
    ensures forall c :: c in RenamePlan(names) ==>
      exists i :: 0 <= i < |names| && names[i] == c.from && RetagAll(names)[i] == c.to
  {
    var after := RetagAll(names);
    forall i | 0 <= i < |names| && IsTxtName(names[i])
      ensures Rename(names[i], after[i]) in RenamePlan(names)
    {
      assert after[i] == Retagged(names[i]);
      RenamePlanIff(names, names[i], after[i]);
    }
    forall c | c in RenamePlan(names)
      ensures exists i :: 0 <= i < |names| && names[i] == c.from && after[i] == c.to
    {
      RenamePlanIff(names, c.from, c.to);
      var i :| 0 <= i < |names| && names[i] == c.from;
      assert after[i] == Retagged(names[i]);
    }
  }

  /** The pass visits names in working-set order: the renames for a prefix of
      the working set come before those for the rest. */
  lemma RenamePlanOrder(xs: seq<string>, ys: seq<string>)
    ensures RenamePlan(xs + ys) == RenamePlan(xs) + RenamePlan(ys)
  {
    FilterConcat(IsTxtName, xs, ys);
    RenamesOfConcat(Filter(IsTxtName, xs), Filter(IsTxtName, ys));
  }

  /** The rename calls for two runs of sources, one after the other. */
  lemma RenamesOfConcat(a: seq<string>, b: seq<string>)
    ensures RenamesOf(a + b) == RenamesOf(a) + RenamesOf(b)
  {
    var l := RenamesOf(a + b);
    var r := RenamesOf(a) + RenamesOf(b);
    assert |l| == |r|;
    forall i | 0 <= i < |l|
      ensures l[i] == r[i]
    {
      if i < |a| {
        assert (a + b)[i] == a[i];
      } else {
        assert (a + b)[i] == b[i - |a|];
      }
    }
  }

  /** Retagging twice gives the names retagging once gives, and the second
      pass renames nothing. */
  lemma RetagIdempotent(names: seq<string>)
    ensures RetagAll(RetagAll(names)) == RetagAll(names)
    ensures RenamePlan(RetagAll(names)) == []
  {
    var once := RetagAll(names);
    forall i | 0 <= i < |once|
      ensures !IsTxtName(once[i]) && Retagged(once[i]) == once[i]
    {
      assert once[i] == Retagged(names[i]);
    }
    var twice := RetagAll(once);
    assert |twice| == |once|;
    assert forall i :: 0 <= i < |once| ==> twice[i] == once[i];
    FilterNone(IsTxtName, once);
  }

  /** There is no collision guard: for a newline-free stem whose last path
      component is not all dots, a `.txt` name and the `.csv` name it is
      retagged to end up with the same name, so retagging can turn distinct
      working-set names into duplicates. */
  lemma NoCollisionGuard(w: string)
    requires '\n' !in w && |w| > 0 && !AllDots(Basename(w))
    ensures Retagged(w + TXT) == w + CSV
    ensures Retagged(w + CSV) == w + CSV
    ensures var after := RetagAll([w + TXT, w + CSV]);
      w + TXT != w + CSV && after[0] == after[1]
  {
    var s := w + TXT;
    assert s[..|s| - 4] == w;
    assert s[|s| - 4..] == TXT;
    assert '\n' !in s by {
      assert forall j :: 0 <= j < |s| ==> s[j] == if j < |w| then w[j] else TXT[j - |w|];
    }
    RetagSwapsSuffix(s);
    var c := w + CSV;
    assert c[|c| - 4..] == CSV;
    CsvNameIsNotTxt(c);
    assert s[|s| - 3] != c[|c| - 3];
  }

  /** One more working-set name adds its rename call to the plan exactly when
      it matches. */
  lemma PlanStep(names: seq<string>, i: nat)
    requires i < |names|
    ensures RenamePlan(names[..i + 1]) ==
      RenamePlan(names[..i]) + (if IsTxtName(names[i]) then [Rename(names[i], Retagged(names[i]))] else [])
  {
    FilterSnoc(IsTxtName, names, i);
    if IsTxtName(names[i]) {
      RenamesOfSnoc(Filter(IsTxtName, names[..i]), names[i]);
    }
  }

  /** The loop of `change_format_to_csv`: it tests each working-set name in
      turn and issues the rename calls of `RenamePlan`, and only those. */
  method ChangeFormatToCsv(fileNames: seq<string>) returns (renames: seq<Rename>)
    ensures renames == RenamePlan(fileNames)
  {
    renames := [];
    var i := 0;
    while i < |fileNames|
      invariant i <= |fileNames|
      invariant renames == RenamePlan(fileNames[..i])
    {
      var fi := fileNames[i];
      PlanStep(fileNames, i);
      if IsTxtName(fi) {
        var stem := Splitext(fi).0;
        assert Retagged(fi) == stem + CSV;
        renames := renames + [Rename(fi, stem + CSV)];
      }
      i := i + 1;
    }
    assert fileNames[..i] == fileNames;
  }
}
