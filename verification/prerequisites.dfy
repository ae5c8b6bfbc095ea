/** The package part of the prerequisites checker: it reads the output of
    `pip list`, records the installed version of every required package, tries
    to install the ones that are missing, and reports whether all of them were
    present. */
module Prerequisites {
  import opened Wrappers
  import Strings

  /** The checker's state: the overall verdict and the required packages, each
      with the version found for it, if any. */
  datatype Checker = Checker(allChecksPassed: bool, requiredPackages: map<string, Option<string>>)

  /** The required packages in the order the dictionary lists them, which is
      the order the install loop visits them in. */
  const PackageOrder := ["Appium-Python-Client", "requests", "selenium", "mitmproxy"]

  /** A fresh checker: nothing failed yet and no version known. */
  function InitialChecker(): (c: Checker)
    ensures c.allChecksPassed
    ensures c.requiredPackages.Keys == {"Appium-Python-Client", "requests", "selenium", "mitmproxy"}
    ensures forall p :: p in c.requiredPackages <==> p in PackageOrder
    ensures forall p :: p in c.requiredPackages ==> c.requiredPackages[p].None?
  {
    Checker(true, map["Appium-Python-Client" := None, "requests" := None, "selenium" := None, "mitmproxy" := None])
  }

  /** The lines of the listing that are parsed: every line after the two
      header lines (none when there are fewer). */
  function ListingLines(stdout: string): (r: seq<string>)
    ensures forall i :: 0 <= i < |r| ==> '\n' !in r[i]
  {
    var lines := Strings.Split(stdout, '\n');
    if |lines| < 2 then [] else lines[2..]
  }

  /** The package name and version a listing line announces: its first two
      whitespace-separated columns, when it has at least two. */
  function ParseLine(line: string): (r: Option<(string, string)>)
    ensures r.Some? <==> |Strings.Fields(line)| >= 2
    ensures r.Some? ==> r.value.0 == Strings.Fields(line)[0] && r.value.1 == Strings.Fields(line)[1]
    ensures r.Some? ==> |r.value.0| > 0 && |r.value.1| > 0
    ensures r.Some? ==> Strings.NoSpace(r.value.0) && Strings.NoSpace(r.value.1)
  {
    if |line| == 0 then None
    else
      var parts := Strings.Fields(line);
      if |parts| < 2 then None else Some((parts[0], parts[1]))
  }

  predicate Names(line: string, name: string)
  {
    ParseLine(line).Some? && ParseLine(line).value.0 == name
  }

  /** The version the last line naming `name` announces. */
  function Latest(lines: seq<string>, name: string): Option<string>
    decreases |lines|
  {
    if |lines| == 0 then None
    else
      var last := lines[|lines| - 1];
      if Names(last, name) then Some(ParseLine(last).value.1) else Latest(lines[..|lines| - 1], name)
  }

  /** The version recorded for a required package after the listing: the last
      one listed, or the one it had before. */
  function VersionAfter(stored: map<string, Option<string>>, lines: seq<string>, name: string): Option<string>
    requires name in stored
  {
    if Latest(lines, name).Some? then Latest(lines, name) else stored[name]
  }

  /** `Latest` finds a version exactly when some line names the package... */
  lemma {:induction false} LatestNoneIffUnnamed(lines: seq<string>, name: string)
    ensures Latest(lines, name).None? <==> forall i :: 0 <= i < |lines| ==> !Names(lines[i], name)
    decreases |lines|
  {
    if |lines| > 0 {
      var pre := lines[..|lines| - 1];
      LatestNoneIffUnnamed(pre, name);
      assert forall i :: 0 <= i < |pre| ==> pre[i] == lines[i];
    }
  }

  /** ... and then it is the version of the last such line. */
  lemma {:induction false} LatestIsLastLine(lines: seq<string>, name: string) returns (i: nat)
    requires Latest(lines, name).Some?
    ensures i < |lines| && Names(lines[i], name)
    ensures ParseLine(lines[i]).value.1 == Latest(lines, name).value
    ensures forall j :: i < j < |lines| ==> !Names(lines[j], name)
    decreases |lines|
  {
    var pre := lines[..|lines| - 1];
    if Names(lines[|lines| - 1], name) {
      i := |lines| - 1;
    } else {
      i := LatestIsLastLine(pre, name);
      assert lines[i] == pre[i];
    }
  }

  /** The two header lines never contribute, whatever they say. */
  lemma HeaderIgnored(header1: string, header2: string, rows: seq<string>)
    requires '\n' !in header1 && '\n' !in header2
    requires forall i :: 0 <= i < |rows| ==> '\n' !in rows[i]
    ensures ListingLines(Strings.Join([header1, header2] + rows, '\n')) == rows
  {
    var parts := [header1, header2] + rows;
    assert forall i :: 0 <= i < |parts| ==> '\n' !in parts[i];
    Strings.SplitJoin(parts, '\n');
    assert parts[2..] == rows;
  }

  /** A row of name, version and any further columns is read as that name and
      version, however the columns are padded: leading whitespace, whitespace
      runs of any positive length between columns, trailing whitespace. */
  lemma ParseRow(lead: string, columns: seq<string>, gaps: seq<string>, trail: string)
    requires Strings.AllSpace(lead) && Strings.AllSpace(trail)
    requires |columns| >= 2 && |gaps| == |columns| - 1
    requires forall i :: 0 <= i < |columns| ==> |columns[i]| > 0 && Strings.NoSpace(columns[i])
    requires forall i :: 0 <= i < |gaps| ==> |gaps[i]| > 0 && Strings.AllSpace(gaps[i])
    ensures ParseLine(lead + Strings.Interleave(columns, gaps) + trail) == Some((columns[0], columns[1]))
  {
    Strings.FieldsOfLayout(lead, columns, gaps, trail);
  }

  /** An empty or blank line, and a line of a single column, is skipped. */
  lemma ShortLineIgnored(lead: string, word: string, trail: string)
    requires Strings.AllSpace(lead) && Strings.AllSpace(trail) && Strings.NoSpace(word)
    ensures ParseLine(lead + word + trail).None?
  {
    Strings.ConcatAssoc(lead, word, trail);
    Strings.FieldsSkipSpace(lead, word + trail);
    if |word| > 0 {
      Strings.FieldsWordFirst(word, trail);
    } else {
      assert word + trail == trail;
    }
    Strings.FieldsSkipSpace(trail, "");
    assert trail + "" == trail;
  }

  /** The parsing loop: the working copy of the required packages after every
      listing line has been read. */
  method ReadVersions(stored: map<string, Option<string>>, lines: seq<string>)
    returns (found: map<string, Option<string>>)
    ensures found.Keys == stored.Keys
    ensures forall p :: p in found ==> found[p] == VersionAfter(stored, lines, p)
  {
    found := stored;
    var i := 0;
    while i < |lines|
      invariant 0 <= i <= |lines|
      invariant found.Keys == stored.Keys
      invariant forall p :: p in found ==> found[p] == VersionAfter(stored, lines[..i], p)
    {
      var line := lines[i];
      assert lines[..i + 1][..i] == lines[..i];
      if |line| > 0 {
        var parts := Strings.Fields(line);
        if |parts| >= 2 {
          var package, version := parts[0], parts[1];
          if package in found {
            found := found[package := Some(version)];
          }
        }
      }
      i := i + 1;
    }
    assert lines[..i] == lines;
  }

  /** What `pip install` of a package does: it succeeds, it fails with an
      error the handler reports, or it raises out of the check (pip cannot be
      started, or its error output is not valid UTF-8 and decoding it raises). */
  datatype InstallOutcome = Installed | Failed | Raises

  /** A package without a version whose install attempt fails cleanly. */
  predicate MissingFails(found: map<string, Option<string>>, p: string, installs: string -> InstallOutcome)
  {
    p in found && found[p].None? && installs(p) == Failed
  }

  /** A package without a version whose install attempt raises. */
  predicate MissingRaises(found: map<string, Option<string>>, p: string, installs: string -> InstallOutcome)
  {
    p in found && found[p].None? && installs(p) == Raises
  }

  /** Some package fails to install cleanly before any attempt has raised, so
      the handler gets to clear the overall flag. */
  predicate FailureCounted(found: map<string, Option<string>>, order: seq<string>, installs: string -> InstallOutcome)
  {
    exists i :: 0 <= i < |order| && MissingFails(found, order[i], installs)
                && forall j :: 0 <= j < i ==> !MissingRaises(found, order[j], installs)
  }

  /** When no install attempt raises, the visiting order does not matter: the
      flag is cleared exactly when some missing package fails to install. */
  lemma NoRaiseCountsEveryFailure(found: map<string, Option<string>>, order: seq<string>, installs: string -> InstallOutcome)
    requires forall i :: 0 <= i < |order| ==> !MissingRaises(found, order[i], installs)
    requires forall p :: p in found <==> p in order
    ensures FailureCounted(found, order, installs) <==> exists p :: p in found && found[p].None? && installs(p) == Failed
  {
    if exists p :: p in found && found[p].None? && installs(p) == Failed {
      var p :| p in found && found[p].None? && installs(p) == Failed;
      var i :| 0 <= i < |order| && order[i] == p;
      assert MissingFails(found, order[i], installs);
    }
  }

  /** The verdict loop, visiting the packages in dictionary order. Every package
      without a version makes the verdict false, and one that then fails to
      install clears `passed`. An install attempt that raises ends the loop with
      no verdict (`None`); the failures met before it have already cleared
      `passed`, the packages after it are never visited. */
  method Verdict(found: map<string, Option<string>>, order: seq<string>, passedBefore: bool, installs: string -> InstallOutcome)
    returns (allInstalled: Option<bool>, passed: bool)
    requires forall p :: p in found <==> p in order
    ensures allInstalled.None? <==> exists i :: 0 <= i < |order| && MissingRaises(found, order[i], installs)
    ensures allInstalled.Some? ==> (allInstalled.value <==> forall p :: p in found ==> found[p].Some?)
    ensures passed <==> passedBefore && !FailureCounted(found, order, installs)
  {
    var all := true;
    passed := passedBefore;
    var i := 0;
    while i < |order|
      invariant 0 <= i <= |order|
      invariant forall j :: 0 <= j < i ==> !MissingRaises(found, order[j], installs)
      invariant all <==> forall j :: 0 <= j < i ==> found[order[j]].Some?
      invariant passed <==> passedBefore && forall j :: 0 <= j < i ==> !MissingFails(found, order[j], installs)
    {
      var p := order[i];
      if found[p].None? {
        all := false;
        match installs(p)
        case Installed =>
        case Failed =>
          passed := false;
        case Raises =>
          RaiseHidesLater(found, order, i, passedBefore, passed, installs);
          return None, passed;
      }
      i := i + 1;
    }
    assert forall p :: p in found ==> exists j :: 0 <= j < |order| && order[j] == p;
    return Some(all), passed;
  }

  /** Once the attempt at position `i` raises, the failures counted are exactly
      those before `i`. */
  lemma RaiseHidesLater(found: map<string, Option<string>>, order: seq<string>, i: nat, passedBefore: bool, passed: bool,
                        installs: string -> InstallOutcome)
    requires i < |order| && MissingRaises(found, order[i], installs)
    requires forall j :: 0 <= j < i ==> !MissingRaises(found, order[j], installs)
    requires passed <==> passedBefore && forall j :: 0 <= j < i ==> !MissingFails(found, order[j], installs)
    ensures passed <==> passedBefore && !FailureCounted(found, order, installs)
  {
    forall k | 0 <= k < |order| && MissingFails(found, order[k], installs) && k > i
      ensures exists j :: 0 <= j < k && MissingRaises(found, order[j], installs)
    {
      assert MissingRaises(found, order[i], installs);
    }
  }

  /** `check_python_packages` once inside the virtual environment: `stdout` is
      what `pip list` printed, `order` is the order of the required-packages
      dictionary, and `installs` says what `pip install` of a package does.
      The stored packages are left as they were (the check works on a copy);
      the versions found, the verdict (`None` when an install attempt
      raised), and the updated overall flag are returned. */
  method CheckPythonPackages(checker: Checker, order: seq<string>, stdout: string, installs: string -> InstallOutcome)
    returns (next: Checker, found: map<string, Option<string>>, allInstalled: Option<bool>)
    requires forall p :: p in checker.requiredPackages <==> p in order
    ensures next.requiredPackages == checker.requiredPackages
    ensures found.Keys == checker.requiredPackages.Keys
    ensures forall p :: p in found ==> found[p] == VersionAfter(checker.requiredPackages, ListingLines(stdout), p)
    ensures allInstalled.None? <==> exists i :: 0 <= i < |order| && MissingRaises(found, order[i], installs)
    ensures allInstalled.Some? ==> (allInstalled.value <==> forall p :: p in found ==> found[p].Some?)
    ensures next.allChecksPassed <==> checker.allChecksPassed && !FailureCounted(found, order, installs)
  {
    found := ReadVersions(checker.requiredPackages, ListingLines(stdout));
    var passed;
    allInstalled, passed := Verdict(found, order, checker.allChecksPassed, installs);
    next := checker.(allChecksPassed := passed);
  }
}
