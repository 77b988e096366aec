/**
 * The message of the exception raised when some packages could not be trusted: a fixed
 * headline, a line break, then the reason of every failed package verification, separated by
 * blank lines, first argument first.
 */
module PackagesTrustCheckFailed {
  import opened Text
  import opened Package

  /** The headline of a failed trust check, with its trailing space (one line, written in three pieces). */
  const Headline := "The following packages need " + "to be signed and verified, " + "or added to exclusions: "

  lemma HeadlineOnOneLine()
    ensures '\n' !in Headline
  {
    assert '\n' !in "The following packages need ";
    assert '\n' !in "to be signed and verified, ";
    assert '\n' !in "or added to exclusions: ";
  }

  /** The reasons of the given verifications, in order (`array_map` of `printReason`). */
  function Reasons(verifications: seq<PackageVerification>): (r: seq<string>)
    ensures |r| == |verifications|
    ensures forall i :: 0 <= i < |verifications| ==> r[i] == verifications[i].PrintReason()
  {
    if |verifications| == 0 then []
    else
      var rest := Reasons(verifications[1..]);
      assert forall i :: 1 <= i < |verifications| ==> rest[i - 1] == verifications[i].PrintReason();
      [verifications[0].PrintReason()] + rest
  }

  /** At least one failed verification is required; the further ones follow it. */
  function FromFailedPackageVerifications(failedVerification: PackageVerification, furtherFailedVerifications: seq<PackageVerification>): (message: string)
    ensures StartsWith(message, Headline + "\n" + failedVerification.PrintReason())
  {
    var reasons := Reasons([failedVerification] + furtherFailedVerifications);
    var message := Headline + "\n" + Join("\n\n", reasons);
    assert StartsWith(message, Headline + "\n" + failedVerification.PrintReason()) by {
      if |reasons| > 1 {
        JoinCons("\n\n", reasons[0], reasons[1..]);
        assert reasons == [reasons[0]] + reasons[1..];
      }
      var prefix := Headline + "\n" + failedVerification.PrintReason();
      assert message[..|prefix|] == prefix;
    }
    message
  }

  /** With a single verification the message is the headline, a line break and its reason, nothing more. */
  lemma SingleFailure(failedVerification: PackageVerification)
    ensures FromFailedPackageVerifications(failedVerification, []) == Headline + "\n" + failedVerification.PrintReason()
  {
    assert [failedVerification] + [] == [failedVerification];
  }

  /**
   * One more failed verification adds a blank line and its reason at the end: reasons appear
   * in argument order.
   */
  lemma AppendFailure(failedVerification: PackageVerification, further: seq<PackageVerification>, last: PackageVerification)
    ensures FromFailedPackageVerifications(failedVerification, further + [last])
      == FromFailedPackageVerifications(failedVerification, further) + "\n\n" + last.PrintReason()
  {
    var all := [failedVerification] + further;
    assert [failedVerification] + (further + [last]) == all + [last];
    ReasonsConcat(all, [last]);
    assert Reasons([last]) == [last.PrintReason()];
    AppendAfterPrefix(Headline + "\n", Reasons(all), last.PrintReason());
    assert FromFailedPackageVerifications(failedVerification, further) == Headline + "\n" + Join("\n\n", Reasons(all));
    assert FromFailedPackageVerifications(failedVerification, further + [last]) == Headline + "\n" + Join("\n\n", Reasons(all + [last]));
  }

  /** `JoinSnoc` under a fixed prefix, kept apart so that the long headline stays a plain value. */
  lemma AppendAfterPrefix(prefix: string, reasons: seq<string>, reason: string)
    requires |reasons| >= 1
    ensures prefix + Join("\n\n", reasons + [reason]) == prefix + Join("\n\n", reasons) + "\n\n" + reason
  {
    var j := Join("\n\n", reasons);
    var sep := "\n\n";
    JoinSnoc(sep, reasons, reason);
    ConcatAssoc(prefix, j + sep, reason);
    ConcatAssoc(prefix, j, sep);
  }

  /** The reason of every verification passed in appears in the message. */
  lemma MessageListsEveryReason(failedVerification: PackageVerification, further: seq<PackageVerification>, i: nat)
    requires i <= |further|
    ensures Contains(FromFailedPackageVerifications(failedVerification, further), ([failedVerification] + further)[i].PrintReason())
  {
    var reasons := Reasons([failedVerification] + further);
    JoinContainsElement("\n\n", reasons, i);
    ContainsInSuffix(Headline + "\n", Join("\n\n", reasons), reasons[i]);
  }

  lemma {:induction false} ReasonsConcat(a: seq<PackageVerification>, b: seq<PackageVerification>)
    ensures Reasons(a + b) == Reasons(a) + Reasons(b)
    decreases |a|
  {
    if |a| == 0 {
      assert a + b == b;
    } else {
      assert (a + b)[1..] == a[1..] + b;
      ReasonsConcat(a[1..], b);
    }
  }
}
