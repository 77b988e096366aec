/**
 * The plugin's `verify` pass over the vendor directory: each package directory is checked
 * with `git verify-commit`, falling back to the signed tags at HEAD when that fails; the
 * result is recorded in a table keyed by package name, and the packages that are unsigned or
 * unverified are reported together.
 *
 * Here the flag the source calls `$signed` means FAILED: it holds the exit code of the last
 * git command, or'ed with "a warning was printed".
 */
module Verify {
  import opened Text
  import GitSignatureCheck
  import PackagesTrustCheckFailed

  /** What `exec` hands back: the exit code and the output lines. */
  datatype ExecResult = ExecResult(exitCode: int, lines: seq<string>)

  /** A tag pointing at HEAD (one line of `git tag --points-at HEAD`) and what `git tag -v` prints for it. */
  datatype TagRun = TagRun(name: string, check: ExecResult)

  /**
   * One entry of the glob over `<vendor-dir>/<vendor>/<project>`: whether it is a directory, the package name
   * built from its real path, whether it has a `.git` directory, what `git verify-commit`
   * answers and the tags at HEAD.
   */
  datatype VendorDir = VendorDir(isDir: bool, packageName: string, hasGit: bool, commitCheck: ExecResult, tags: seq<TagRun>)

  /** The `git` column: `false` for a directory without `.git`, otherwise the string `'dunno'`. */
  datatype GitColumn = NoGit | Dunno

  datatype Row = Row(git: GitColumn, signed: bool, signature: string, verified: bool)

  /** One key of the ordered `$packages` array with its value. */
  datatype Entry = Entry(name: string, row: Row)

  /** How `verify` ends: normally, or by one of its two exceptions, carrying the message. */
  datatype Outcome = Passed | PreferredInstallNotSource(message: string) | TrustCheckFailed(message: string)

  // ----- the ordered table -----

  /** The position of `name` among the keys, if it is one. */
  function IndexOf(packages: seq<Entry>, name: string): (r: Option<nat>)
    ensures r.Some? ==> r.value < |packages| && packages[r.value].name == name
    ensures r.Some? ==> forall j :: 0 <= j < r.value ==> packages[j].name != name
    ensures r.None? ==> forall j :: 0 <= j < |packages| ==> packages[j].name != name
  {
    if |packages| == 0 then None
    else if packages[0].name == name then Some(0)
    else match IndexOf(packages[1..], name)
      case None => None
      case Some(j) => Some(j + 1)
  }

  /** `$packages[$name] = $row`: an existing key keeps its place, a new key goes last. */
  function Put(packages: seq<Entry>, name: string, row: Row): seq<Entry> {
    match IndexOf(packages, name)
    case Some(i) => packages[i := Entry(name, row)]
    case None => packages + [Entry(name, row)]
  }

  /** `$packages[$name] ?? null`. */
  function Lookup(packages: seq<Entry>, name: string): Option<Row> {
    match IndexOf(packages, name)
    case Some(i) => Some(packages[i].row)
    case None => None
  }

  predicate DistinctNames(packages: seq<Entry>) {
    forall i, j :: 0 <= i < j < |packages| ==> packages[i].name != packages[j].name
  }

  // ----- warnings and the commit/tag decision -----

  /** `verifySignatureValidationHasNoWarnings`: no line contains the gpg warning marker. */
  predicate NoWarnings(lines: seq<string>) {
    forall i :: 0 <= i < |lines| ==> !Contains(lines[i], GitSignatureCheck.WarningMarker)
  }

  /** `$signed = $exitCode || !noWarnings($lines)`: the value of the failure flag after a git command. */
  predicate CheckFailed(exitCode: int, lines: seq<string>) {
    exitCode != 0 || !NoWarnings(lines)
  }

  /** The failure flag, the package's output lines and the never-reset tag output after the tag loop. */
  datatype TagState = TagState(failed: bool, output: seq<string>, tagOutput: seq<string>)

  /**
   * The tag loop, entered with the flag set: falsy tag names are skipped, each tag's lines are
   * appended to the tag output gathered so far, and the first tag whose check leaves the flag
   * clear appends all of that tag output to the package's output and stops the loop.
   */
  function TagLoop(tags: seq<TagRun>, output: seq<string>, tagOutput: seq<string>): TagState
    decreases |tags|
  {
    if |tags| == 0 then TagState(true, output, tagOutput)
    else if !IsTruthy(tags[0].name) then TagLoop(tags[1..], output, tagOutput)
    else
      var gathered := tagOutput + tags[0].check.lines;
      if !CheckFailed(tags[0].check.exitCode, gathered) then TagState(false, output + gathered, gathered)
      else TagLoop(tags[1..], output, gathered)
  }

  /** A package with `.git`: the commit check, and the tag loop only when that failed. */
  function GitOutcome(d: VendorDir, tagOutput: seq<string>): TagState {
    if CheckFailed(d.commitCheck.exitCode, d.commitCheck.lines) then TagLoop(d.tags, d.commitCheck.lines, tagOutput)
    else TagState(false, d.commitCheck.lines, tagOutput)
  }

  /** The table and the tag output carried from one directory to the next. */
  datatype RunState = RunState(packages: seq<Entry>, tagOutput: seq<string>)

  /** One iteration of the `foreach` over the vendor directories. */
  function Step(s: RunState, d: VendorDir): RunState {
    if !d.isDir then s
    else if !d.hasGit then RunState(Put(s.packages, d.packageName, Row(NoGit, false, "", false)), s.tagOutput)
    else
      var t := GitOutcome(d, s.tagOutput);
      RunState(Put(s.packages, d.packageName, Row(Dunno, |t.output| > 0, Join("\n", t.output), !t.failed)), t.tagOutput)
  }

  /** The state after the loop has seen every directory of `dirs`, in order. */
  function Run(dirs: seq<VendorDir>): RunState
    decreases |dirs|
  {
    if |dirs| == 0 then RunState([], [])
    else Step(Run(dirs[..|dirs| - 1]), dirs[|dirs| - 1])
  }

  // ----- aggregation -----

  /** `array_keys(array_filter($packages, !signed))`. */
  function UnsignedNames(packages: seq<Entry>): (r: seq<string>)
    ensures forall x :: x in r <==> exists i :: 0 <= i < |packages| && packages[i].name == x && !packages[i].row.signed
    decreases |packages|
  {
    if |packages| == 0 then []
    else
      var rest := UnsignedNames(packages[..|packages| - 1]);
      var last := packages[|packages| - 1];
      assert forall i :: 0 <= i < |packages| - 1 ==> packages[..|packages| - 1][i] == packages[i];
      if last.row.signed then rest else rest + [last.name]
  }

  /** `array_keys(array_filter($packages, !verified))`. */
  function UnverifiedNames(packages: seq<Entry>): (r: seq<string>)
    ensures forall x :: x in r <==> exists i :: 0 <= i < |packages| && packages[i].name == x && !packages[i].row.verified
    decreases |packages|
  {
    if |packages| == 0 then []
    else
      var rest := UnverifiedNames(packages[..|packages| - 1]);
      var last := packages[|packages| - 1];
      assert forall i :: 0 <= i < |packages| - 1 ==> packages[..|packages| - 1][i] == packages[i];
      if last.row.verified then rest else rest + [last.name]
  }

  predicate NoDuplicates(xs: seq<string>) {
    forall i, j :: 0 <= i < j < |xs| ==> xs[i] != xs[j]
  }

  /** `array_values(array_unique($xs))`: the first occurrence of every value, in order. */
  function Unique(xs: seq<string>): (r: seq<string>)
    ensures forall x :: x in r <==> x in xs
    ensures NoDuplicates(r)
    decreases |xs|
  {
    if |xs| == 0 then []
    else
      var rest := Unique(xs[..|xs| - 1]);
      assert forall x :: x in xs <==> x in xs[..|xs| - 1] || x == xs[|xs| - 1] by {
        assert xs == xs[..|xs| - 1] + [xs[|xs| - 1]];
      }
      if xs[|xs| - 1] in rest then rest else rest + [xs[|xs| - 1]]
  }

  /** The packages to report: unsigned ones first, then unverified ones, each once (both exclusion lists are empty). */
  function Escapes(packages: seq<Entry>): seq<string> {
    Unique(UnsignedNames(packages) + UnverifiedNames(packages))
  }

  function TrustFailureMessage(escapes: seq<string>): string {
    PackagesTrustCheckFailed.Headline + "\n" + Join("\n", escapes)
  }

  const PreferredInstallPrefix := "Expected installation \"preferred-install\" to be \"source\", found \""
  const PreferredInstallSuffix := "\" instead"

  /** `assertSourceInstallation`: the message of the `LogicException`, or nothing when the setting is `source`. */
  function AssertSourceInstallation(preferredInstall: string): (r: Option<string>)
    ensures r.None? <==> preferredInstall == "source"
  {
    if preferredInstall != "source" then Some(PreferredInstallPrefix + preferredInstall + PreferredInstallSuffix)
    else None
  }

  /** What `verify` does, as one function of the setting and the directories. */
  function VerifyOutcomeOf(preferredInstall: string, dirs: seq<VendorDir>): Outcome {
    match AssertSourceInstallation(preferredInstall)
    case Some(message) => PreferredInstallNotSource(message)
    case None =>
      var escapes := Escapes(Run(dirs).packages);
      if |escapes| == 0 then Passed else TrustCheckFailed(TrustFailureMessage(escapes))
  }

  // ----- the pass itself -----

  method Verify(preferredInstall: string, vendorDirs: seq<VendorDir>) returns (outcome: Outcome)
    ensures outcome == VerifyOutcomeOf(preferredInstall, vendorDirs)
  {
    var failure := AssertSourceInstallation(preferredInstall);
    if failure.Some? {
      return PreferredInstallNotSource(failure.value);
    }
    var packages: seq<Entry> := [];
    var tagSignatureOutput: seq<string> := [];
    for i := 0 to |vendorDirs|
      invariant RunState(packages, tagSignatureOutput) == Run(vendorDirs[..i])
    {
      var vendorDir := vendorDirs[i];
      assert vendorDirs[..i + 1][..i] == vendorDirs[..i];
      if !vendorDir.isDir {
        continue;
      }
      var packageName := vendorDir.packageName;
      if !vendorDir.hasGit {
        packages := Put(packages, packageName, Row(NoGit, false, "", false));
        continue;
      }
      var output := vendorDir.commitCheck.lines;
      var signed := CheckFailed(vendorDir.commitCheck.exitCode, output);
      if signed {
        var tags := vendorDir.tags;
        ghost var before := tagSignatureOutput;
        var j := 0;
        while j < |tags|
          invariant 0 <= j <= |tags|
          invariant signed
          invariant TagLoop(tags[j..], output, tagSignatureOutput) == TagLoop(tags, vendorDir.commitCheck.lines, before)
        {
          var tag := tags[j];
          assert tags[j..][1..] == tags[j + 1..];
          if !IsTruthy(tag.name) {
            j := j + 1;
            continue;
          }
          tagSignatureOutput := tagSignatureOutput + tag.check.lines;
          signed := CheckFailed(tag.check.exitCode, tagSignatureOutput);
          if !signed {
            output := output + tagSignatureOutput;
            break;
          }
          j := j + 1;
        }
      }
      packages := Put(packages, packageName, Row(Dunno, |output| > 0, Join("\n", output), !signed));
    }
    assert vendorDirs[..|vendorDirs|] == vendorDirs;
    var escapes := Escapes(packages);
    if |escapes| == 0 {
      return Passed;
    }
    return TrustCheckFailed(TrustFailureMessage(escapes));
  }

  // ----- the table -----

  /** Writing a key changes what that key reads and nothing else. */
  lemma PutLookup(packages: seq<Entry>, name: string, row: Row, other: string)
    ensures Lookup(Put(packages, name, row), other) == if other == name then Some(row) else Lookup(packages, other)
  {
    var p := Put(packages, name, row);
    match IndexOf(packages, name)
    case Some(i) => {
      assert p[i] == Entry(name, row);
      assert forall j :: 0 <= j < |p| && j != i ==> p[j] == packages[j];
      if other == name {
        assert IndexOf(p, other) == Some(i) by { IndexOfFirst(p, other, i); }
      } else {
        IndexOfSame(packages, p, other);
      }
    }
    case None => {
      assert forall j :: 0 <= j < |packages| ==> p[j] == packages[j];
      if other == name {
        IndexOfFirst(p, other, |packages|);
      } else {
        IndexOfSame(packages, p, other);
      }
    }
  }

  /** `IndexOf` finds the first position holding the name. */
  lemma IndexOfFirst(packages: seq<Entry>, name: string, i: nat)
    requires i < |packages| && packages[i].name == name
    requires forall j :: 0 <= j < i ==> packages[j].name != name
    ensures IndexOf(packages, name) == Some(i)
  {
  }

  /**
   * Two tables that agree, position by position, on every entry named `name` or placed
   * before it (and have it at the same place, if at all) look `name` up alike.
   */
  lemma IndexOfSame(a: seq<Entry>, b: seq<Entry>, name: string)
    requires |a| <= |b|
    requires forall j :: 0 <= j < |a| ==> (a[j].name == name <==> b[j].name == name)
    requires forall j :: 0 <= j < |a| && a[j].name == name ==> a[j] == b[j]
    requires forall j :: |a| <= j < |b| ==> b[j].name != name
    ensures Lookup(a, name) == Lookup(b, name)
  {
    match IndexOf(a, name)
    case Some(i) => IndexOfFirst(b, name, i);
    case None => assert IndexOf(b, name).None?;
  }

  /** Writing a key keeps every key where it was, and adds the key at the end when it is new. */
  lemma PutKeys(packages: seq<Entry>, name: string, row: Row)
    ensures var p := Put(packages, name, row);
      |p| == (if Lookup(packages, name).Some? then |packages| else |packages| + 1)
      && (forall j :: 0 <= j < |packages| ==> p[j].name == packages[j].name)
      && (Lookup(packages, name).None? ==> p[|packages|].name == name)
    ensures DistinctNames(packages) ==> DistinctNames(Put(packages, name, row))
  {
  }

  /** No package name is ever recorded twice. */
  lemma {:induction false} RunDistinctNames(dirs: seq<VendorDir>)
    ensures DistinctNames(Run(dirs).packages)
    decreases |dirs|
  {
    if |dirs| > 0 {
      var s := Run(dirs[..|dirs| - 1]);
      RunDistinctNames(dirs[..|dirs| - 1]);
      var d := dirs[|dirs| - 1];
      if d.isDir {
        if d.hasGit {
          var t := GitOutcome(d, s.tagOutput);
          PutKeys(s.packages, d.packageName, Row(Dunno, |t.output| > 0, Join("\n", t.output), !t.failed));
        } else {
          PutKeys(s.packages, d.packageName, Row(NoGit, false, "", false));
        }
      }
    }
  }

  // ----- warnings -----

  /** Scanning the lines for warnings is the same as scanning the text they form. */
  lemma NoWarningsOfJoinedLines(lines: seq<string>)
    requires |lines| >= 1
    requires forall i :: 0 <= i < |lines| ==> '\n' !in lines[i]
    ensures NoWarnings(lines) <==> GitSignatureCheck.SignatureValidationHasNoWarnings(Join("\n", lines))
  {
    SplitLinesJoin(lines);
  }

  /** A list of lines is warning-free exactly when both its parts are. */
  lemma NoWarningsConcat(a: seq<string>, b: seq<string>)
    ensures NoWarnings(a + b) <==> NoWarnings(a) && NoWarnings(b)
  {
    assert forall i :: 0 <= i < |a| ==> (a + b)[i] == a[i];
    assert forall i :: 0 <= i < |b| ==> (a + b)[|a| + i] == b[i];
  }

  // ----- the tag loop -----

  /** The lines of the tags with a truthy name, in order: what `exec` appends to the tag output across the loop. */
  function TruthyTagLines(tags: seq<TagRun>): seq<string>
    decreases |tags|
  {
    if |tags| == 0 then []
    else (if IsTruthy(tags[0].name) then tags[0].check.lines else []) + TruthyTagLines(tags[1..])
  }

  /**
   * Tag `j` clears the flag: its name is truthy, its check exits with 0, and no warning is
   * among all the tag output gathered up to and including it.
   */
  predicate TagPassesAt(tags: seq<TagRun>, tagOutput: seq<string>, j: int) {
    0 <= j < |tags| && IsTruthy(tags[j].name) && !CheckFailed(tags[j].check.exitCode, tagOutput + TruthyTagLines(tags[..j + 1]))
  }

  /** All the tag output gathered up to and including tag `j`. */
  function Gathered(tags: seq<TagRun>, tagOutput: seq<string>, j: nat): seq<string>
    requires j < |tags|
  {
    tagOutput + TruthyTagLines(tags[..j + 1])
  }

  /** Tag `j` is the first tag that clears the flag. */
  predicate FirstTagPassing(tags: seq<TagRun>, tagOutput: seq<string>, j: int) {
    TagPassesAt(tags, tagOutput, j) && forall k :: 0 <= k < j ==> !TagPassesAt(tags, tagOutput, k)
  }

  /** The tag output after the first tag has been looked at. */
  function NextTagOutput(tags: seq<TagRun>, tagOutput: seq<string>): seq<string>
    requires |tags| > 0
  {
    if IsTruthy(tags[0].name) then tagOutput + tags[0].check.lines else tagOutput
  }

  /** What is gathered up to tag `j` is what is gathered after the first tag, then up to tag `j` of the rest. */
  lemma GatheredUpTo(tags: seq<TagRun>, tagOutput: seq<string>, j: nat)
    requires 0 < j < |tags|
    ensures tagOutput + TruthyTagLines(tags[..j + 1]) == NextTagOutput(tags, tagOutput) + TruthyTagLines(tags[1..][..j - 1 + 1])
  {
    assert tags[..j + 1][1..] == tags[1..][..j];
    assert tags[..j + 1][0] == tags[0];
  }

  /** Tag 0 passes exactly when its name is truthy and its check passes on the tag output plus its lines. */
  lemma FirstTagPasses(tags: seq<TagRun>, tagOutput: seq<string>)
    requires 0 < |tags|
    ensures TagPassesAt(tags, tagOutput, 0)
      <==> IsTruthy(tags[0].name) && !CheckFailed(tags[0].check.exitCode, tagOutput + tags[0].check.lines)
    ensures TruthyTagLines(tags[..1]) == (if IsTruthy(tags[0].name) then tags[0].check.lines else [])
  {
    assert tags[..1][1..] == [];
    assert tags[..1][0] == tags[0];
    if IsTruthy(tags[0].name) {
      assert TruthyTagLines(tags[..1]) == tags[0].check.lines + [];
      assert tags[0].check.lines + [] == tags[0].check.lines;
    } else {
      assert TruthyTagLines(tags[..1]) == [] + [];
    }
  }

  /** Tag `j > 0` passes exactly when it passes in the rest of the list, after the first tag has been looked at. */
  lemma LaterTagPasses(tags: seq<TagRun>, tagOutput: seq<string>, j: nat)
    requires 0 < j < |tags|
    ensures TagPassesAt(tags, tagOutput, j) <==> TagPassesAt(tags[1..], NextTagOutput(tags, tagOutput), j - 1)
  {
    GatheredUpTo(tags, tagOutput, j);
  }

  /** When no tag clears the flag, the package keeps its output and every truthy tag's lines stay in the tag output. */
  lemma {:induction false} TagLoopFails(tags: seq<TagRun>, output: seq<string>, tagOutput: seq<string>)
    requires TagLoop(tags, output, tagOutput).failed
    ensures forall j :: !TagPassesAt(tags, tagOutput, j)
    ensures TagLoop(tags, output, tagOutput) == TagState(true, output, tagOutput + TruthyTagLines(tags))
    decreases |tags|
  {
    if |tags| == 0 {
      assert tagOutput + [] == tagOutput;
    } else {
      var next := NextTagOutput(tags, tagOutput);
      assert TagLoop(tags, output, tagOutput) == TagLoop(tags[1..], output, next);
      TagLoopFails(tags[1..], output, next);
      if IsTruthy(tags[0].name) {
        assert next + TruthyTagLines(tags[1..]) == tagOutput + TruthyTagLines(tags);
      } else {
        assert TruthyTagLines(tags) == [] + TruthyTagLines(tags[1..]);
      }
      FirstTagPasses(tags, tagOutput);
      forall j | 0 < j < |tags| ensures !TagPassesAt(tags, tagOutput, j) {
        LaterTagPasses(tags, tagOutput, j);
      }
    }
  }

  /**
   * When a tag clears the flag it is the first tag `j` that does: the package output gets the
   * whole tag output gathered up to it, and the tag output is left at that.
   */
  lemma {:induction false} TagLoopPasses(tags: seq<TagRun>, output: seq<string>, tagOutput: seq<string>) returns (j: nat)
    requires !TagLoop(tags, output, tagOutput).failed
    ensures TagPassesAt(tags, tagOutput, j)
    ensures forall k :: k < j ==> !TagPassesAt(tags, tagOutput, k)
    ensures var gathered := tagOutput + TruthyTagLines(tags[..j + 1]);
      TagLoop(tags, output, tagOutput) == TagState(false, output + gathered, gathered)
    decreases |tags|
  {
    FirstTagPasses(tags, tagOutput);
    if IsTruthy(tags[0].name) && !CheckFailed(tags[0].check.exitCode, tagOutput + tags[0].check.lines) {
      j := 0;
    } else {
      var next := NextTagOutput(tags, tagOutput);
      assert TagLoop(tags, output, tagOutput) == TagLoop(tags[1..], output, next);
      var j' := TagLoopPasses(tags[1..], output, next);
      j := j' + 1;
      LaterTagPasses(tags, tagOutput, j);
      GatheredUpTo(tags, tagOutput, j);
      forall k | 0 < k < j ensures !TagPassesAt(tags, tagOutput, k) {
        LaterTagPasses(tags, tagOutput, k);
      }
    }
  }

  /** The tag loop clears the flag exactly when some tag passes against the tag output gathered so far. */
  lemma TagLoopVerdict(tags: seq<TagRun>, output: seq<string>, tagOutput: seq<string>)
    ensures !TagLoop(tags, output, tagOutput).failed <==> exists j :: TagPassesAt(tags, tagOutput, j)
  {
    if TagLoop(tags, output, tagOutput).failed {
      TagLoopFails(tags, output, tagOutput);
    } else {
      var j := TagLoopPasses(tags, output, tagOutput);
    }
  }

  // ----- the rows -----

  /**
   * What one directory leaves in the table: nothing when it is no directory; `false` in every
   * column without `.git`; with `.git`, the commit check's lines when it passes; when it
   * fails and some tag clears the flag, the commit lines followed by all the tag output
   * gathered up to the first such tag, verified; when no tag does, the commit lines alone,
   * unverified. In every case `signed` says whether those lines are non-empty.
   */
  lemma StepRow(s: RunState, d: VendorDir)
    ensures !d.isDir ==> Step(s, d) == s
    ensures d.isDir && !d.hasGit ==>
      Lookup(Step(s, d).packages, d.packageName) == Some(Row(NoGit, false, "", false))
      && Step(s, d).tagOutput == s.tagOutput
    ensures d.isDir && d.hasGit && !CheckFailed(d.commitCheck.exitCode, d.commitCheck.lines) ==>
      Lookup(Step(s, d).packages, d.packageName)
        == Some(Row(Dunno, |d.commitCheck.lines| > 0, Join("\n", d.commitCheck.lines), true))
      && Step(s, d).tagOutput == s.tagOutput
    ensures (d.isDir && d.hasGit && CheckFailed(d.commitCheck.exitCode, d.commitCheck.lines)
      && forall j :: !TagPassesAt(d.tags, s.tagOutput, j)) ==>
      Lookup(Step(s, d).packages, d.packageName)
        == Some(Row(Dunno, |d.commitCheck.lines| > 0, Join("\n", d.commitCheck.lines), false))
      && Step(s, d).tagOutput == s.tagOutput + TruthyTagLines(d.tags)
    ensures (d.isDir && d.hasGit && CheckFailed(d.commitCheck.exitCode, d.commitCheck.lines)
      && exists j :: TagPassesAt(d.tags, s.tagOutput, j)) ==>
      exists j: nat :: FirstTagPassing(d.tags, s.tagOutput, j)
        && var output := d.commitCheck.lines + Gathered(d.tags, s.tagOutput, j);
        Lookup(Step(s, d).packages, d.packageName) == Some(Row(Dunno, |output| > 0, Join("\n", output), true))
        && Step(s, d).tagOutput == Gathered(d.tags, s.tagOutput, j)
    ensures forall other :: other != d.packageName ==> Lookup(Step(s, d).packages, other) == Lookup(s.packages, other)
  {
    if d.isDir {
      var row := if !d.hasGit then Row(NoGit, false, "", false)
        else var t := GitOutcome(d, s.tagOutput); Row(Dunno, |t.output| > 0, Join("\n", t.output), !t.failed);
      assert Step(s, d).packages == Put(s.packages, d.packageName, row);
      forall other {
        PutLookup(s.packages, d.packageName, row, other);
      }
      if d.hasGit && CheckFailed(d.commitCheck.exitCode, d.commitCheck.lines) {
        if TagLoop(d.tags, d.commitCheck.lines, s.tagOutput).failed {
          TagLoopFails(d.tags, d.commitCheck.lines, s.tagOutput);
        } else {
          var j := TagLoopPasses(d.tags, d.commitCheck.lines, s.tagOutput);
          assert FirstTagPassing(d.tags, s.tagOutput, j);
        }
      }
    }
  }

  /** The row of a package is the one written by the last directory with its name. */
  lemma {:induction false} LastWriteWins(dirs: seq<VendorDir>, i: nat)
    requires i < |dirs| && dirs[i].isDir
    requires forall j :: i < j < |dirs| && dirs[j].isDir ==> dirs[j].packageName != dirs[i].packageName
    ensures Lookup(Run(dirs).packages, dirs[i].packageName) == Lookup(Step(Run(dirs[..i]), dirs[i]).packages, dirs[i].packageName)
    decreases |dirs|
  {
    var n := |dirs| - 1;
    assert dirs[..n][..i] == dirs[..i];
    if i < n {
      LastWriteWins(dirs[..n], i);
      StepRow(Run(dirs[..n]), dirs[n]);
    }
  }

  /** A directory without `.git`, not overwritten by a later one of the same name, is reported. */
  lemma NonGitPackageReported(dirs: seq<VendorDir>, i: nat)
    requires i < |dirs| && dirs[i].isDir && !dirs[i].hasGit
    requires forall j :: i < j < |dirs| && dirs[j].isDir ==> dirs[j].packageName != dirs[i].packageName
    ensures dirs[i].packageName in Escapes(Run(dirs).packages)
    ensures VerifyOutcomeOf("source", dirs).TrustCheckFailed?
  {
    var name := dirs[i].packageName;
    var packages := Run(dirs).packages;
    assert Lookup(packages, name) == Some(Row(NoGit, false, "", false)) by {
      LastWriteWins(dirs, i);
      var before := Run(dirs[..i]).packages;
      var row := Row(NoGit, false, "", false);
      assert Step(Run(dirs[..i]), dirs[i]).packages == Put(before, name, row);
      PutLookup(before, name, row, name);
    }
    UnsignedIsReported(packages, name);
    assert VerifyOutcomeOf("source", dirs) == TrustCheckFailed(TrustFailureMessage(Escapes(packages)));
  }

  /** A name whose row is unsigned is among the reported names. */
  lemma UnsignedIsReported(packages: seq<Entry>, name: string)
    requires Lookup(packages, name).Some? && !Lookup(packages, name).value.signed
    ensures name in Escapes(packages)
  {
    var k := IndexOf(packages, name).value;
    assert name in UnsignedNames(packages);
  }

  // ----- the report -----

  /** A package is reported exactly when its row is unsigned or unverified, and no name is reported twice. */
  lemma EscapesAreTheOffenders(packages: seq<Entry>, x: string)
    ensures x in Escapes(packages) <==>
      exists i :: 0 <= i < |packages| && packages[i].name == x && (!packages[i].row.signed || !packages[i].row.verified)
    ensures NoDuplicates(Escapes(packages))
  {
  }

  /** The names of the rows that are signed but not verified, in table order. */
  function SignedUnverifiedNames(packages: seq<Entry>): seq<string>
    decreases |packages|
  {
    if |packages| == 0 then []
    else
      var last := packages[|packages| - 1];
      SignedUnverifiedNames(packages[..|packages| - 1]) + (if last.row.signed && !last.row.verified then [last.name] else [])
  }

  /** The elements of `b` not in `a`, in order. */
  function Without(b: seq<string>, a: seq<string>): seq<string>
    decreases |b|
  {
    if |b| == 0 then []
    else Without(b[..|b| - 1], a) + (if b[|b| - 1] in a then [] else [b[|b| - 1]])
  }

  lemma {:induction false} WithoutSubset(b: seq<string>, a: seq<string>, x: string)
    requires x in Without(b, a)
    ensures x in b
    decreases |b|
  {
    if x !in Without(b[..|b| - 1], a) {
      assert x == b[|b| - 1];
    } else {
      WithoutSubset(b[..|b| - 1], a, x);
    }
  }

  /** Without duplicates, keeping first occurrences keeps everything. */
  lemma {:induction false} UniqueOfDistinct(xs: seq<string>)
    requires NoDuplicates(xs)
    ensures Unique(xs) == xs
    decreases |xs|
  {
    if |xs| > 0 {
      var init := xs[..|xs| - 1];
      UniqueOfDistinct(init);
      assert xs[|xs| - 1] !in init;
      assert xs == init + [xs[|xs| - 1]];
    }
  }

  /** De-duplicating two duplicate-free lists keeps the first and adds what of the second is new. */
  lemma {:induction false} UniqueAppend(a: seq<string>, b: seq<string>)
    requires NoDuplicates(a) && NoDuplicates(b)
    ensures Unique(a + b) == a + Without(b, a)
    decreases |b|
  {
    if |b| == 0 {
      assert a + b == a;
      UniqueOfDistinct(a);
    } else {
      var init := b[..|b| - 1];
      var y := b[|b| - 1];
      assert (a + b)[..|a + b| - 1] == a + init;
      UniqueAppend(a, init);
      if y in Without(init, a) {
        WithoutSubset(init, a, y);
        assert false;
      }
    }
  }

  /** `Without` only asks of each element of `b` whether it is in `a`. */
  lemma {:induction false} WithoutSame(b: seq<string>, a1: seq<string>, a2: seq<string>)
    requires forall x :: x in b ==> (x in a1 <==> x in a2)
    ensures Without(b, a1) == Without(b, a2)
    decreases |b|
  {
    if |b| > 0 {
      assert forall x :: x in b[..|b| - 1] ==> x in b;
      WithoutSame(b[..|b| - 1], a1, a2);
    }
  }

  lemma {:induction false} NamesAreKeys(packages: seq<Entry>, x: string)
    ensures x in UnsignedNames(packages) || x in UnverifiedNames(packages) ==> exists i :: 0 <= i < |packages| && packages[i].name == x
  {
  }

  lemma {:induction false} OffendingNamesDistinct(packages: seq<Entry>)
    requires DistinctNames(packages)
    ensures NoDuplicates(UnsignedNames(packages)) && NoDuplicates(UnverifiedNames(packages))
    decreases |packages|
  {
    if |packages| > 0 {
      var init := packages[..|packages| - 1];
      var last := packages[|packages| - 1];
      OffendingNamesDistinct(init);
      NamesAreKeys(init, last.name);
    }
  }

  /** With distinct names, the unverified names that are not unsigned are the signed-but-unverified ones. */
  lemma {:induction false} UnverifiedWithoutUnsigned(packages: seq<Entry>)
    requires DistinctNames(packages)
    ensures Without(UnverifiedNames(packages), UnsignedNames(packages)) == SignedUnverifiedNames(packages)
    decreases |packages|
  {
    if |packages| > 0 {
      var init := packages[..|packages| - 1];
      var last := packages[|packages| - 1];
      UnverifiedWithoutUnsigned(init);
      var u := UnsignedNames(packages);
      forall x | x in UnverifiedNames(init) ensures x in UnsignedNames(init) <==> x in u {
        NamesAreKeys(init, x);
      }
      WithoutSame(UnverifiedNames(init), UnsignedNames(init), u);
      NamesAreKeys(init, last.name);
    }
  }

  /**
   * With distinct names (as every run's table has), the report lists the unsigned packages in
   * table order, then the signed but unverified ones in table order.
   */
  lemma EscapesOrder(packages: seq<Entry>)
    requires DistinctNames(packages)
    ensures Escapes(packages) == UnsignedNames(packages) + SignedUnverifiedNames(packages)
  {
    OffendingNamesDistinct(packages);
    UniqueAppend(UnsignedNames(packages), UnverifiedNames(packages));
    UnverifiedWithoutUnsigned(packages);
  }

  /** The report of a whole run, in order. */
  lemma RunEscapesOrder(dirs: seq<VendorDir>)
    ensures Escapes(Run(dirs).packages) == UnsignedNames(Run(dirs).packages) + SignedUnverifiedNames(Run(dirs).packages)
  {
    RunDistinctNames(dirs);
    EscapesOrder(Run(dirs).packages);
  }

  /** `verify` returns normally exactly when every recorded package is signed and verified. */
  lemma PassedIffAllSignedAndVerified(dirs: seq<VendorDir>)
    ensures VerifyOutcomeOf("source", dirs) == Passed <==>
      forall i :: 0 <= i < |Run(dirs).packages| ==> Run(dirs).packages[i].row.signed && Run(dirs).packages[i].row.verified
  {
    var packages := Run(dirs).packages;
    var escapes := Escapes(packages);
    if |escapes| > 0 {
      var x := escapes[0];
      EscapesAreTheOffenders(packages, x);
    } else {
      forall i | 0 <= i < |packages| ensures packages[i].row.signed && packages[i].row.verified {
        EscapesAreTheOffenders(packages, packages[i].name);
      }
    }
  }

  /** Any other setting than `source` stops `verify` before it looks at a single directory. */
  lemma NonSourceInstallRejected(preferredInstall: string, dirs: seq<VendorDir>)
    requires preferredInstall != "source"
    ensures VerifyOutcomeOf(preferredInstall, dirs) == VerifyOutcomeOf(preferredInstall, [])
    ensures VerifyOutcomeOf(preferredInstall, dirs).PreferredInstallNotSource?
    ensures ReadFoundSetting(VerifyOutcomeOf(preferredInstall, dirs).message) == Some(preferredInstall)
  {
    var m := PreferredInstallPrefix + preferredInstall + PreferredInstallSuffix;
    var n := |PreferredInstallPrefix|;
    assert m[..n] == PreferredInstallPrefix;
    assert m[|m| - |PreferredInstallSuffix|..] == PreferredInstallSuffix;
    assert m[n..|m| - |PreferredInstallSuffix|] == preferredInstall;
  }

  /** The setting named in the `preferred-install` message, read back from between its quotes. */
  function ReadFoundSetting(message: string): Option<string> {
    var n := |PreferredInstallPrefix|;
    if |message| >= n + |PreferredInstallSuffix| && message[..n] == PreferredInstallPrefix
      && message[|message| - |PreferredInstallSuffix|..] == PreferredInstallSuffix
    then Some(message[n..|message| - |PreferredInstallSuffix|])
    else None
  }

  /** The failure message is the headline followed by one reported name per line. */
  lemma TrustFailureMessageLines(escapes: seq<string>)
    requires forall i :: 0 <= i < |escapes| ==> '\n' !in escapes[i]
    ensures SplitLines(TrustFailureMessage(escapes)) == [PackagesTrustCheckFailed.Headline] + (if |escapes| == 0 then [""] else escapes)
  {
    var h := PackagesTrustCheckFailed.Headline;
    var lines := [h] + (if |escapes| == 0 then [""] else escapes);
    PackagesTrustCheckFailed.HeadlineOnOneLine();
    if |escapes| == 0 {
      assert Join("\n", lines) == h + "\n" + "";
    } else {
      JoinCons("\n", h, escapes);
    }
    SplitLinesJoin(lines);
  }

  // ----- the tag output that is never reset -----

  /** The verdict of a tag loop that judges every tag on its own output. */
  datatype TagVerdict = TagVerdict(failed: bool, output: seq<string>)

  /**
   * The tag loop as its comment says it is meant to work, "see if at least one is signed":
   * each tag is judged on its own `git tag -v` output alone.
   */
  function TagLoopFresh(tags: seq<TagRun>, output: seq<string>): TagVerdict
    decreases |tags|
  {
    if |tags| == 0 then TagVerdict(true, output)
    else if !IsTruthy(tags[0].name) then TagLoopFresh(tags[1..], output)
    else if !CheckFailed(tags[0].check.exitCode, tags[0].check.lines) then TagVerdict(false, output + tags[0].check.lines)
    else TagLoopFresh(tags[1..], output)
  }

  /** Tag `j` has a truthy name and passes on its own output. */
  predicate TagPassesAlone(tags: seq<TagRun>, j: int) {
    0 <= j < |tags| && IsTruthy(tags[j].name) && !CheckFailed(tags[j].check.exitCode, tags[j].check.lines)
  }

  /**
   * The corrected loop clears the flag exactly when some tag passes on its own, and then adds
   * the lines of the first such tag to the package's output.
   */
  lemma {:induction false} TagLoopFreshVerdict(tags: seq<TagRun>, output: seq<string>)
    ensures !TagLoopFresh(tags, output).failed <==> exists j :: TagPassesAlone(tags, j)
    ensures TagLoopFresh(tags, output).failed ==> TagLoopFresh(tags, output).output == output
    ensures !TagLoopFresh(tags, output).failed ==>
      exists j :: TagPassesAlone(tags, j) && (forall k :: 0 <= k < j ==> !TagPassesAlone(tags, k))
        && TagLoopFresh(tags, output).output == output + tags[j].check.lines
    decreases |tags|
  {
    if |tags| > 0 {
      TagLoopFreshVerdict(tags[1..], output);
      assert forall j :: 0 < j < |tags| ==> (TagPassesAlone(tags, j) <==> TagPassesAlone(tags[1..], j - 1));
      if !TagPassesAlone(tags, 0) && !TagLoopFresh(tags, output).failed {
        var j :| TagPassesAlone(tags[1..], j) && (forall k :: 0 <= k < j ==> !TagPassesAlone(tags[1..], k))
          && TagLoopFresh(tags[1..], output).output == output + tags[1..][j].check.lines;
        assert TagPassesAlone(tags, j + 1);
        assert forall k :: 0 <= k < j + 1 ==> !TagPassesAlone(tags, k);
      }
    }
  }

  /** The row the corrected pass records for a directory: it depends on that directory alone. */
  function RowFresh(d: VendorDir): Row {
    if !d.hasGit then Row(NoGit, false, "", false)
    else
      var t := if CheckFailed(d.commitCheck.exitCode, d.commitCheck.lines) then TagLoopFresh(d.tags, d.commitCheck.lines)
        else TagVerdict(false, d.commitCheck.lines);
      Row(Dunno, |t.output| > 0, Join("\n", t.output), !t.failed)
  }

  /** One iteration of the corrected pass: no tag output is carried from one directory to the next. */
  function StepFresh(packages: seq<Entry>, d: VendorDir): seq<Entry> {
    if !d.isDir then packages else Put(packages, d.packageName, RowFresh(d))
  }

  function RunFresh(dirs: seq<VendorDir>): seq<Entry>
    decreases |dirs|
  {
    if |dirs| == 0 then [] else StepFresh(RunFresh(dirs[..|dirs| - 1]), dirs[|dirs| - 1])
  }

  /**
   * In the corrected pass a git package is verified exactly when its commit check passes or,
   * failing that, one of its tags passes on its own output. The recorded lines are the commit
   * lines, followed by the lines of the first tag that passes, if one is needed and found;
   * `signed` says whether they are non-empty.
   */
  lemma RowFreshVerdict(d: VendorDir)
    ensures !d.hasGit ==> RowFresh(d) == Row(NoGit, false, "", false)
    ensures d.hasGit ==> (RowFresh(d).git == Dunno
      && (RowFresh(d).verified <==> !CheckFailed(d.commitCheck.exitCode, d.commitCheck.lines) || exists j :: TagPassesAlone(d.tags, j)))
    ensures (d.hasGit && !CheckFailed(d.commitCheck.exitCode, d.commitCheck.lines)) ==>
      RowFresh(d) == Row(Dunno, |d.commitCheck.lines| > 0, Join("\n", d.commitCheck.lines), true)
    ensures (d.hasGit && CheckFailed(d.commitCheck.exitCode, d.commitCheck.lines)
      && forall j :: !TagPassesAlone(d.tags, j)) ==>
      RowFresh(d) == Row(Dunno, |d.commitCheck.lines| > 0, Join("\n", d.commitCheck.lines), false)
    ensures (d.hasGit && CheckFailed(d.commitCheck.exitCode, d.commitCheck.lines)
      && exists j :: TagPassesAlone(d.tags, j)) ==>
      exists j: nat :: TagPassesAlone(d.tags, j) && (forall k :: 0 <= k < j ==> !TagPassesAlone(d.tags, k))
        && var output := d.commitCheck.lines + d.tags[j].check.lines;
        RowFresh(d) == Row(Dunno, |output| > 0, Join("\n", output), true)
  {
    TagLoopFreshVerdict(d.tags, d.commitCheck.lines);
  }

  /** In the corrected pass the row of a package is the row of the last directory with its name, whatever came before. */
  lemma {:induction false} RunFreshRow(dirs: seq<VendorDir>, i: nat)
    requires i < |dirs| && dirs[i].isDir
    requires forall j :: i < j < |dirs| && dirs[j].isDir ==> dirs[j].packageName != dirs[i].packageName
    ensures Lookup(RunFresh(dirs), dirs[i].packageName) == Some(RowFresh(dirs[i]))
    decreases |dirs|
  {
    var n := |dirs| - 1;
    var d := dirs[n];
    assert dirs[..n][..i] == dirs[..i];
    if i < n {
      RunFreshRow(dirs[..n], i);
      if d.isDir {
        PutLookup(RunFresh(dirs[..n]), d.packageName, RowFresh(d), dirs[i].packageName);
      }
    } else {
      PutLookup(RunFresh(dirs[..n]), d.packageName, RowFresh(d), d.packageName);
    }
  }

  /** Whatever the tag output left by earlier directories, a package the pass as written verifies, the corrected pass verifies too. */
  lemma StepNeverTrustsMore(s: RunState, d: VendorDir)
    requires d.isDir
    ensures Lookup(Step(s, d).packages, d.packageName).Some?
    ensures Lookup(Step(s, d).packages, d.packageName).value.verified ==> RowFresh(d).verified
  {
    StepRow(s, d);
    if d.hasGit {
      var t := GitOutcome(d, s.tagOutput);
      var row := Row(Dunno, |t.output| > 0, Join("\n", t.output), !t.failed);
      PutLookup(s.packages, d.packageName, row, d.packageName);
      if CheckFailed(d.commitCheck.exitCode, d.commitCheck.lines) {
        AsWrittenNeverTrustsMore(d.tags, d.commitCheck.lines, s.tagOutput);
      }
    }
  }

  lemma {:induction false} TruthyTagLinesConcat(a: seq<TagRun>, b: seq<TagRun>)
    ensures TruthyTagLines(a + b) == TruthyTagLines(a) + TruthyTagLines(b)
    decreases |a|
  {
    if |a| == 0 {
      assert a + b == b;
    } else {
      var head := if IsTruthy(a[0].name) then a[0].check.lines else [];
      assert (a + b)[0] == a[0];
      assert (a + b)[1..] == a[1..] + b;
      TruthyTagLinesConcat(a[1..], b);
      calc {
        TruthyTagLines(a + b);
        head + TruthyTagLines(a[1..] + b);
        head + (TruthyTagLines(a[1..]) + TruthyTagLines(b));
        (head + TruthyTagLines(a[1..])) + TruthyTagLines(b);
      }
    }
  }

  /**
   * The loop as written is stricter than the corrected one, never looser: whatever tag clears
   * the flag against all the tag output gathered so far also passes on its own.
   */
  lemma AsWrittenNeverTrustsMore(tags: seq<TagRun>, output: seq<string>, tagOutput: seq<string>)
    ensures !TagLoop(tags, output, tagOutput).failed ==> !TagLoopFresh(tags, output).failed
  {
    if !TagLoop(tags, output, tagOutput).failed {
      var j := TagLoopPasses(tags, output, tagOutput);
      assert tags[..j + 1] == tags[..j] + [tags[j]];
      TruthyTagLinesConcat(tags[..j], [tags[j]]);
      assert TruthyTagLines([tags[j]]) == tags[j].check.lines + [];
      assert tags[j].check.lines + [] == tags[j].check.lines;
      NoWarningsConcat(tagOutput + TruthyTagLines(tags[..j]), tags[j].check.lines);
      assert tagOutput + TruthyTagLines(tags[..j + 1]) == tagOutput + TruthyTagLines(tags[..j]) + tags[j].check.lines;
      assert TagPassesAlone(tags, j);
      TagLoopFreshVerdict(tags, output);
    }
  }

  /** A needle with a character the text lacks does not occur in it. */
  lemma MissingCharNotContained(s: string, p: string, k: nat)
    requires k < |p| && p[k] !in s
    ensures !Contains(s, p)
  {
    if Contains(s, p) {
      var i :| 0 <= i <= |s| && MatchAt(s, i, p);
      CharOfMatch(s, p, i, i + k);
    }
  }

  /**
   * As written: after a tag whose check printed a warning, a later tag that passes on its own
   * still fails, because the warning stays in the tag output; the corrected loop accepts it.
   */
  lemma EarlierTagWarningRejectsGoodTag()
    ensures var warned := TagRun("v1", ExecResult(0, ["gpg: WARNING: untrusted"]));
      var good := TagRun("v2", ExecResult(0, ["gpg: Good signature"]));
      var d := VendorDir(true, "acme/lib", true, ExecResult(1, []), [warned, good]);
      TagPassesAlone(d.tags, 1)
      && GitOutcome(d, []).failed
      && !TagLoopFresh(d.tags, d.commitCheck.lines).failed
  {
    var warnLine := "gpg: WARNING: untrusted";
    var goodLine := "gpg: Good signature";
    var marker := GitSignatureCheck.WarningMarker;
    assert warnLine[0..14] == marker;
    assert MatchAt(warnLine, 0, marker);
    assert marker[5] == 'W';
    assert 'W' !in goodLine;
    MissingCharNotContained(goodLine, marker, 5);
    assert Contains(warnLine, marker);
    var warned := TagRun("v1", ExecResult(0, [warnLine]));
    var good := TagRun("v2", ExecResult(0, [goodLine]));
    var tags := [warned, good];
    assert !CheckFailed(0, [goodLine]);
    assert CheckFailed(0, [warnLine]) by {
      assert [warnLine][0] == warnLine;
    }
    assert [] + [warnLine] == [warnLine];
    assert CheckFailed(0, [warnLine] + [goodLine]) by {
      assert ([warnLine] + [goodLine])[0] == warnLine;
    }
    assert tags[1..] == [good];
    assert tags[1..][1..] == [];
    assert TagLoop([good], [], [warnLine]) == TagLoop([], [], [warnLine] + [goodLine]);
    assert TagLoop(tags, [], []) == TagLoop([good], [], [warnLine]);
    assert TagLoopFresh(tags, []) == TagLoopFresh([good], []);
  }

  /**
   * As written, across packages: the tag output is not reset between directories either, so a
   * warning printed for one package's tag makes another package's good tag fail, and that
   * package is reported.
   */
  lemma WarningCarriesIntoNextPackage()
    ensures var warnLine := "gpg: WARNING: untrusted";
      var goodLine := "gpg: Good signature";
      var first := VendorDir(true, "acme/one", true, ExecResult(1, []), [TagRun("v1", ExecResult(0, [warnLine]))]);
      var second := VendorDir(true, "acme/two", true, ExecResult(1, []), [TagRun("v1", ExecResult(0, [goodLine]))]);
      TagPassesAlone(second.tags, 0)
      && Lookup(Run([first, second]).packages, "acme/two").Some?
      && !Lookup(Run([first, second]).packages, "acme/two").value.verified
      && "acme/two" in Escapes(Run([first, second]).packages)
      && RowFresh(second).verified
  {
    var warnLine := "gpg: WARNING: untrusted";
    var goodLine := "gpg: Good signature";
    var marker := GitSignatureCheck.WarningMarker;
    assert warnLine[0..14] == marker;
    assert MatchAt(warnLine, 0, marker);
    assert Contains(warnLine, marker);
    assert marker[5] == 'W';
    assert 'W' !in goodLine;
    MissingCharNotContained(goodLine, marker, 5);
    var first := VendorDir(true, "acme/one", true, ExecResult(1, []), [TagRun("v1", ExecResult(0, [warnLine]))]);
    var second := VendorDir(true, "acme/two", true, ExecResult(1, []), [TagRun("v1", ExecResult(0, [goodLine]))]);
    assert !CheckFailed(0, [goodLine]);
    assert [] + [warnLine] == [warnLine];
    assert CheckFailed(0, [warnLine]) by {
      assert [warnLine][0] == warnLine;
    }
    assert CheckFailed(0, [warnLine] + [goodLine]) by {
      assert ([warnLine] + [goodLine])[0] == warnLine;
    }
    var s0 := RunState([], []);
    assert [first, second][..1] == [first];
    assert [first][..0] == [];
    assert Run([first]) == Step(s0, first);
    assert IsTruthy("v1");
    assert GitOutcome(first, []).tagOutput == [warnLine] by {
      assert first.tags[1..] == [];
      assert TagLoop(first.tags, [], []) == TagLoop([], [], [] + [warnLine]);
    }
    var s1 := Step(s0, first);
    assert s1.tagOutput == [warnLine];
    assert Run([first, second]) == Step(s1, second);
    assert GitOutcome(second, [warnLine]).failed by {
      assert second.tags[1..] == [];
      assert TagLoop(second.tags, [], [warnLine]) == TagLoop([], [], [warnLine] + [goodLine]);
    }
    StepRow(s1, second);
    var packages := Run([first, second]).packages;
    var k := IndexOf(packages, "acme/two").value;
    assert !packages[k].row.verified;
    assert "acme/two" in UnverifiedNames(packages);
    RowFreshVerdict(second);
    assert TagPassesAlone(second.tags, 0);
  }

  /**
   * As written, the other way round: the lines of a tag that failed are merged into the
   * package's output when a later tag passes, so they alone can make the row `signed` and
   * the package pass, where the corrected pass records no lines and reports it as unsigned.
   */
  lemma FailedTagLinesMarkSigned()
    ensures var d := VendorDir(true, "acme/lib", true, ExecResult(1, []),
        [TagRun("v1", ExecResult(1, ["error: no signature found"])), TagRun("v2", ExecResult(0, []))]);
      Escapes(Run([d]).packages) == []
      && VerifyOutcomeOf("source", [d]) == Passed
      && !RowFresh(d).signed && RowFresh(d).verified
      && "acme/lib" in Escapes(RunFresh([d]))
  {
    var failLine := "error: no signature found";
    var marker := GitSignatureCheck.WarningMarker;
    assert marker[5] == 'W';
    assert 'W' !in failLine;
    MissingCharNotContained(failLine, marker, 5);
    var failed := TagRun("v1", ExecResult(1, [failLine]));
    var good := TagRun("v2", ExecResult(0, []));
    var d := VendorDir(true, "acme/lib", true, ExecResult(1, []), [failed, good]);
    assert d.tags[1..] == [good];
    assert [good][1..] == [];
    assert IsTruthy("v1") && IsTruthy("v2");
    assert [] + [failLine] == [failLine];
    assert [failLine] + [] == [failLine];
    assert !CheckFailed(0, [failLine]) by {
      assert [failLine][0] == failLine;
    }
    assert TagLoop([good], [], [failLine]) == TagState(false, [failLine], [failLine]);
    assert TagLoop(d.tags, [], []) == TagLoop([good], [], [failLine]);
    var row := Row(Dunno, true, Join("\n", [failLine]), true);
    assert [d][..0] == [];
    assert Run([d]) == RunState([Entry("acme/lib", row)], [failLine]);
    var packages := [Entry("acme/lib", row)];
    assert UnsignedNames(packages) == [] by {
      assert packages[..0] == [];
    }
    assert UnverifiedNames(packages) == [] by {
      assert packages[..0] == [];
    }
    assert Escapes(packages) == Unique([]);
    assert TagLoopFresh(d.tags, []) == TagLoopFresh([good], []);
    assert RowFresh(d) == Row(Dunno, false, "", true);
    assert RunFresh([d]) == [Entry("acme/lib", RowFresh(d))];
    assert "acme/lib" in UnsignedNames(RunFresh([d]));
  }
}
