/**
 * The verdict on one installed package: either a git package, which is verified when at
 * least one of its signature checks can be trusted, or a package in a format that cannot be
 * verified at all.
 */
module Package {
  import opened Text
  import opened GitSignatureCheck

  /**
   * `GitPackage` itself admits an empty list of checks, as the private constructor does; the
   * factory `FromPackageAndSignatureChecks` is what guarantees at least one.
   */
  datatype PackageVerification =
    | GitPackage(name: string, checks: seq<SignatureCheck>)
    | UnknownPackageFormat(name: string)
  {
    function PackageName(): string {
      name
    }

    predicate IsVerified() {
      match this
      case GitPackage(_, checks) => PassedChecks(checks) != []
      case UnknownPackageFormat(_) => false
    }

    /** Why the package is or is not trusted, listing the checks that decided it. */
    function PrintReason(): string {
      match this
      case GitPackage(name, checks) =>
        if IsVerified() then
          PassedHeadline(name) + "\n\n" + Join("\n\n", Render(PassedChecks(checks)))
        else
          FailedHeadline(name) + "\n\n" + Join("\n\n", Render(FailedChecks(checks)))
      case UnknownPackageFormat(name) =>
        "Package \"" + name + UnknownFormatText
    }
  }

  /** What follows the name in the reason of an unknown-format package (one backslash in the PHP namespace). */
  const UnknownFormatText := "\" is in a format that Roave\\ComposerGpgVerify cannot verify: try forcing it to be downloaded as GIT repository"

  function PassedHeadline(name: string): string {
    "The following GIT GPG signature checks passed for package \"" + name + "\":"
  }

  function FailedHeadline(name: string): string {
    "The following GIT GPG signature checks have failed for package \"" + name + "\":"
  }

  /** A git package holds the first check followed by the further ones, in the given order. */
  function FromPackageAndSignatureChecks(packageName: string, firstCheck: SignatureCheck, checks: seq<SignatureCheck>): (r: PackageVerification)
    ensures r.GitPackage? && |r.checks| >= 1 && r.checks[0] == firstCheck && r.checks[1..] == checks
    ensures r.PackageName() == packageName
  {
    GitPackage(packageName, [firstCheck] + checks)
  }

  /** A package that is not a git checkout; only its name is kept. */
  function FromNonGitPackage(packageName: string): (r: PackageVerification)
    ensures r.PackageName() == packageName && !r.IsVerified()
  {
    UnknownPackageFormat(packageName)
  }

  /** The checks that can be trusted, in their original order. */
  function PassedChecks(checks: seq<SignatureCheck>): (r: seq<SignatureCheck>)
    ensures |r| <= |checks|
  {
    if |checks| == 0 then []
    else (if checks[0].CanBeTrusted() then [checks[0]] else []) + PassedChecks(checks[1..])
  }

  /** The checks that cannot be trusted, in their original order. */
  function FailedChecks(checks: seq<SignatureCheck>): (r: seq<SignatureCheck>)
    ensures |r| <= |checks|
  {
    if |checks| == 0 then []
    else (if checks[0].CanBeTrusted() then [] else [checks[0]]) + FailedChecks(checks[1..])
  }

  /** The passed checks are exactly the trusted checks among the given ones. */
  lemma {:induction false} PassedChecksMembers(checks: seq<SignatureCheck>)
    ensures forall c :: c in PassedChecks(checks) <==> c in checks && c.CanBeTrusted()
    decreases |checks|
  {
    if |checks| > 0 {
      PassedChecksMembers(checks[1..]);
      assert checks == [checks[0]] + checks[1..];
    }
  }

  /** The failed checks are exactly the untrusted checks among the given ones. */
  lemma {:induction false} FailedChecksMembers(checks: seq<SignatureCheck>)
    ensures forall c :: c in FailedChecks(checks) <==> c in checks && !c.CanBeTrusted()
    decreases |checks|
  {
    if |checks| > 0 {
      FailedChecksMembers(checks[1..]);
      assert checks == [checks[0]] + checks[1..];
    }
  }

  /** `array_map` of `asHumanReadableString` over a list of checks. */
  function Render(checks: seq<SignatureCheck>): (r: seq<string>)
    ensures |r| == |checks|
    ensures forall i :: 0 <= i < |checks| ==> r[i] == checks[i].AsHumanReadableString()
  {
    if |checks| == 0 then [] else [checks[0].AsHumanReadableString()] + Render(checks[1..])
  }

  // ----- properties -----

  /** A git package is verified exactly when one of its checks can be trusted. */
  lemma GitPackageVerifiedIffSomeCheckTrusted(name: string, checks: seq<SignatureCheck>)
    ensures GitPackage(name, checks).IsVerified() <==> exists i :: 0 <= i < |checks| && checks[i].CanBeTrusted()
  {
    var r := PassedChecks(checks);
    PassedChecksMembers(checks);
    if exists i :: 0 <= i < |checks| && checks[i].CanBeTrusted() {
      var i :| 0 <= i < |checks| && checks[i].CanBeTrusted();
      assert checks[i] in r;
    }
    if r != [] {
      assert r[0] in r;
    }
  }

  /** Filtering commutes with concatenation, so the passed checks keep their relative order. */
  lemma {:induction false} PassedChecksConcat(a: seq<SignatureCheck>, b: seq<SignatureCheck>)
    ensures PassedChecks(a + b) == PassedChecks(a) + PassedChecks(b)
    decreases |a|
  {
    if |a| == 0 {
      assert a + b == b;
    } else {
      var head := if a[0].CanBeTrusted() then [a[0]] else [];
      assert (a + b)[0] == a[0];
      assert (a + b)[1..] == a[1..] + b;
      PassedChecksConcat(a[1..], b);
      calc {
        PassedChecks(a + b);
        head + PassedChecks(a[1..] + b);
        head + (PassedChecks(a[1..]) + PassedChecks(b));
        (head + PassedChecks(a[1..])) + PassedChecks(b);
      }
    }
  }

  /** Filtering commutes with concatenation, so the failed checks keep their relative order. */
  lemma {:induction false} FailedChecksConcat(a: seq<SignatureCheck>, b: seq<SignatureCheck>)
    ensures FailedChecks(a + b) == FailedChecks(a) + FailedChecks(b)
    decreases |a|
  {
    if |a| == 0 {
      assert a + b == b;
    } else {
      var head := if a[0].CanBeTrusted() then [] else [a[0]];
      assert (a + b)[0] == a[0];
      assert (a + b)[1..] == a[1..] + b;
      FailedChecksConcat(a[1..], b);
      calc {
        FailedChecks(a + b);
        head + FailedChecks(a[1..] + b);
        head + (FailedChecks(a[1..]) + FailedChecks(b));
        (head + FailedChecks(a[1..])) + FailedChecks(b);
      }
    }
  }

  /** Every check is kept by exactly one of the two filters: together they are a permutation of the checks. */
  lemma {:induction false} ChecksPartition(checks: seq<SignatureCheck>)
    ensures multiset(PassedChecks(checks)) + multiset(FailedChecks(checks)) == multiset(checks)
    ensures |PassedChecks(checks)| + |FailedChecks(checks)| == |checks|
    decreases |checks|
  {
    if |checks| > 0 {
      ChecksPartition(checks[1..]);
      assert checks == [checks[0]] + checks[1..];
    }
  }

  /** With no trusted check, the failed checks are all the checks, in order. */
  lemma {:induction false} NoneTrustedAllFailed(checks: seq<SignatureCheck>)
    requires forall i :: 0 <= i < |checks| ==> !checks[i].CanBeTrusted()
    ensures FailedChecks(checks) == checks
    ensures PassedChecks(checks) == []
    decreases |checks|
  {
    if |checks| > 0 {
      NoneTrustedAllFailed(checks[1..]);
    }
  }

  /**
   * The reason of a git package opens with the headline that says which way it went, and
   * an unverified package lists every one of its checks.
   */
  lemma GitPackageReason(name: string, checks: seq<SignatureCheck>)
    ensures var p := GitPackage(name, checks);
      p.IsVerified() ==> StartsWith(p.PrintReason(), PassedHeadline(name) + "\n\n")
    ensures var p := GitPackage(name, checks);
      !p.IsVerified() ==> p.PrintReason() == FailedHeadline(name) + "\n\n" + Join("\n\n", Render(checks))
  {
    var p := GitPackage(name, checks);
    if !p.IsVerified() {
      GitPackageVerifiedIffSomeCheckTrusted(name, checks);
      NoneTrustedAllFailed(checks);
    } else {
      var h := PassedHeadline(name) + "\n\n";
      assert p.PrintReason() == h + Join("\n\n", Render(PassedChecks(checks)));
      assert p.PrintReason()[..|h|] == h;
    }
  }

  /** A package with a single trusted check explains itself by that check's report alone. */
  lemma SingleTrustedCheckReason(name: string, check: SignatureCheck)
    requires check.CanBeTrusted()
    ensures FromPackageAndSignatureChecks(name, check, []).IsVerified()
    ensures FromPackageAndSignatureChecks(name, check, []).PrintReason()
      == PassedHeadline(name) + "\n\n" + check.AsHumanReadableString()
  {
    assert [check] + [] == [check];
    assert PassedChecks([check]) == [check] by {
      assert [check][1..] == [];
    }
  }

  /** The report of every check that decided a git package appears in its reason. */
  lemma GitPackageReasonListsDecidingChecks(name: string, checks: seq<SignatureCheck>, i: nat)
    requires i < |checks|
    requires GitPackage(name, checks).IsVerified() <==> checks[i].CanBeTrusted()
    ensures Contains(GitPackage(name, checks).PrintReason(), checks[i].AsHumanReadableString())
  {
    var p := GitPackage(name, checks);
    var c := checks[i];
    var decided := if p.IsVerified() then PassedChecks(checks) else FailedChecks(checks);
    var head := if p.IsVerified() then PassedHeadline(name) + "\n\n" else FailedHeadline(name) + "\n\n";
    PassedChecksMembers(checks);
    FailedChecksMembers(checks);
    assert c in decided;
    var j :| 0 <= j < |decided| && decided[j] == c;
    var rendered := Render(decided);
    JoinContainsElement("\n\n", rendered, j);
    assert p.PrintReason() == head + Join("\n\n", rendered);
    ContainsInSuffix(head, Join("\n\n", rendered), c.AsHumanReadableString());
  }

  /** The name of the package an unknown-format reason is about, read back from the reason. */
  function ReadUnknownFormatName(reason: string): Option<string> {
    if |reason| >= 9 + |UnknownFormatText| && reason[..9] == "Package \""
      && reason[|reason| - |UnknownFormatText|..] == UnknownFormatText
    then Some(reason[9..|reason| - |UnknownFormatText|])
    else None
  }

  /**
   * An unknown-format package is never verified, and its reason names it: the name reads back
   * from between `Package "` and the fixed explanation.
   */
  lemma UnknownPackageReason(name: string)
    ensures !FromNonGitPackage(name).IsVerified()
    ensures FromNonGitPackage(name).PackageName() == name
    ensures ReadUnknownFormatName(FromNonGitPackage(name).PrintReason()) == Some(name)
  {
    var r := FromNonGitPackage(name).PrintReason();
    assert r == "Package \"" + name + UnknownFormatText;
    assert r[..9] == "Package \"";
    assert r[|r| - |UnknownFormatText|..] == UnknownFormatText;
    assert r[9..|r| - |UnknownFormatText|] == name;
  }
}
