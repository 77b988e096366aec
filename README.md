# composer-gpg-verify: the trust decision, in Dafny

A model of the trust decision in Roave/composer-gpg-verify, a Composer plugin. It refuses to
let an install proceed unless each installed git dependency's HEAD is signed by a trusted GPG
key.

The model covers the five core PHP files:

- **`GitSignatureCheck`** (`git_signature_check.dfy`): one `git verify-commit` / `git tag -v`
  invocation as a value.
  - Its facts are the commit hash, tag name, key id and signer. Each is extracted line by line
    by hand-written matchers for the four regular expressions, which are proved equal to
    declarative descriptions of what each pattern matches and captures.
  - Its two verdicts are `isSigned` and `isVerified`/`canBeTrusted`.
  - The human-readable report is also modelled.
- **`Package`** (`package.dfy`): the two-variant verdict `PackageVerification`.
  - `GitPackage` is verified when at least one of its checks can be trusted.
  - `UnknownPackageFormat` is never verified.
  - Both variants have `printReason`.
- **`PackagesTrustCheckFailed`** (`packages_trust_check_failed.dfy`): the aggregate failure
  message.
- **`Verify`** (`verify.dfy`): the plugin's `verify` pass.
  - It is an imperative method: a `for` loop over the vendor directories, and an inner `while`
    loop over the tags that `break`s at the first good tag.
  - The method is proved equal to a functional specification (`VerifyOutcomeOf`), and the
    properties are proved about that specification.
  - `verify` keeps its own result table as an ordered dictionary, modelled as a sequence of
    entries with "update in place or append" (`Put`).
- **`Text`** (`text.dfy`): PHP's `explode`/`implode`, `strpos`, ASCII case folding and string
  truthiness.

Processes and the filesystem are inputs:

- A `git` invocation is an exit code plus its output, as one string (`GitSignatureCheck`) or
  as lines (`Verify`).
- A vendor directory is a `VendorDir` value. It says whether the entry is a directory and
  whether it has `.git`, and carries the package name, the commit check's result and the tags
  at HEAD with each tag's check result.

Three facts about the source shape the `Verify` part of the model:

- `Verify.php` does not build `GitSignatureCheck`/`GitPackage` values at all. It decides from
  exit codes and output lines, and records four columns per package. The flag its source calls
  `$signed` is a *failure* flag: the exit code of the last command, or'ed with "a warning was
  printed".
- Its failure message lists only package names, one per line. It does not use
  `PackagesTrustCheckFailed` or the per-package reasons.
- The packages are not independent of each other, because the tag output is never reset (see
  Findings).

## Model

| member | source | states |
|---|---|---|
| GitSignatureCheck.FromGitCommitCheck | src/Roave/ComposerGpgVerify/Package/Git/GitSignatureCheck.php:111-132 | a commit check never has a tag name; trusted implies signed; signed implies exit code 0 and a truthy key; command, exit code and output are kept as given; every extracted field lies on one output line |
| GitSignatureCheck.FromGitTagCheck | src/Roave/ComposerGpgVerify/Package/Git/GitSignatureCheck.php:134-155 | trusted implies signed; signed implies exit code 0 and a truthy key; the inputs are kept; every extracted field is on one line |
| GitSignatureCheck.CommitCheckVerdicts | src/Roave/ComposerGpgVerify/Package/Git/GitSignatureCheck.php:117-128 | `isSigned` holds iff the exit code is 0 and some output line yields a truthy key id; `canBeTrusted` holds iff, in addition, no part of the output contains `gpg: WARNING: ` |
| GitSignatureCheck.TagCheckIsCommitCheckWithTag | src/Roave/ComposerGpgVerify/Package/Git/GitSignatureCheck.php:134-155 | a tag check equals the commit check of the same output with the tag name added, so both have the same verdicts |
| GitSignatureCheck.TagCheckName | src/Roave/ComposerGpgVerify/Package/Git/GitSignatureCheck.php:176-188 | the tag name is truthy and comes from a line `tag <name>` before which no such line has a truthy name; it is absent only when no such line has a truthy name |
| GitSignatureCheck.EmptyOutputNotSigned | src/Roave/ComposerGpgVerify/Package/Git/GitSignatureCheck.php:111-155 | empty output is never signed or trusted, whatever the exit code; its header is the two negative labels followed by blanks |
| GitSignatureCheck.FirstTruthyCapture | src/Roave/ComposerGpgVerify/Package/Git/GitSignatureCheck.php:164-173 | `reset(array_filter(...)) ?: null`: the result is truthy, it is the capture of some line, and no earlier line has a truthy capture; no result means no line has one |
| GitSignatureCheck.CommitHashCaptureMatchesPattern | src/Roave/ComposerGpgVerify/Package/Git/GitSignatureCheck.php:166 | the matcher accepts exactly the lines `(tree\|object) <40 hex>`, case-insensitively, and captures the 40 hex digits |
| GitSignatureCheck.TagNameCaptureMatchesPattern | src/Roave/ComposerGpgVerify/Package/Git/GitSignatureCheck.php:180 | the matcher accepts exactly the lines `tag <non-empty rest>`, case-insensitively, and captures the rest |
| GitSignatureCheck.KeyCaptureMatchesPattern | src/Roave/ComposerGpgVerify/Package/Git/GitSignatureCheck.php:194 | the matcher succeeds iff `gpg:`, later `using `, later ` key ` and a hex digit occur in order; the capture is the whole hex run after the last ` key ` marker |
| GitSignatureCheck.KeyCaptureIsMatch | src/Roave/ComposerGpgVerify/Package/Git/GitSignatureCheck.php:194 | a successful key capture exhibits a match: the positions of `gpg:`, `using ` and the last key marker, and a non-empty hex capture |
| GitSignatureCheck.AuthorCaptureMatchesPattern | src/Roave/ComposerGpgVerify/Package/Git/GitSignatureCheck.php:208 | the matcher succeeds iff `gpg: Good signature from "`, later `" [`, later `]` occur, with a non-empty text between the first two |
| GitSignatureCheck.AuthorCaptureIsMatch | src/Roave/ComposerGpgVerify/Package/Git/GitSignatureCheck.php:208 | the capture starts at the first prefix and ends at the last usable `" [`, as the greedy `(.+)` does |
| GitSignatureCheck.ExtractedFieldsOnOneLine | src/Roave/ComposerGpgVerify/Package/Git/GitSignatureCheck.php:162-216 | every extracted field is newline-free |
| GitSignatureCheck.NoWarningsIffNoMarker | src/Roave/ComposerGpgVerify/Package/Git/GitSignatureCheck.php:218-226 | the line-by-line warning scan finds a warning iff the whole output contains `gpg: WARNING: ` |
| GitSignatureCheck.KeyIdentifierFound | src/Roave/ComposerGpgVerify/Package/Git/GitSignatureCheck.php:190-202 | a key id is extracted iff some line has a truthy key capture |
| GitSignatureCheck.HeaderLabels | src/Roave/ComposerGpgVerify/Package/Git/GitSignatureCheck.php:69-70 | the header's first label reads back as "signed or has a key", the second as "verified" |
| GitSignatureCheck.HumanReadableHeader | src/Roave/ComposerGpgVerify/Package/Git/GitSignatureCheck.php:64-80 | the report's first line is exactly the header, and its labels read back as above |
| GitSignatureCheck.HeaderOnOneLine | src/Roave/ComposerGpgVerify/Package/Git/GitSignatureCheck.php:69-74 | the header holds no line break when the fields it shows hold none |
| GitSignatureCheck.CommitHashCapture | src/Roave/ComposerGpgVerify/Package/Git/GitSignatureCheck.php:166 | group 2 of the commit-hash pattern on one line, or none; what it accepts and captures is `CommitHashCaptureMatchesPattern` |
| GitSignatureCheck.TagNameCapture | src/Roave/ComposerGpgVerify/Package/Git/GitSignatureCheck.php:180 | group 1 of the tag pattern on one line, or none; see `TagNameCaptureMatchesPattern` |
| GitSignatureCheck.KeyCapture | src/Roave/ComposerGpgVerify/Package/Git/GitSignatureCheck.php:194 | group 1 of the key pattern on one line, or none, taken after the last ` key ` marker as PCRE's backtracking does; see `KeyCaptureMatchesPattern` and `KeyCaptureIsMatch` |
| GitSignatureCheck.AuthorCapture | src/Roave/ComposerGpgVerify/Package/Git/GitSignatureCheck.php:208 | group 1 of the author pattern on one line, or none, ending at the last usable `" [`; see `AuthorCaptureMatchesPattern` and `AuthorCaptureIsMatch` |
| GitSignatureCheck.ExtractCommitHash | src/Roave/ComposerGpgVerify/Package/Git/GitSignatureCheck.php:162-174 | the first truthy commit-hash capture over the lines of the output; its properties are those of `FirstTruthyCapture`, and it lies on one line (`ExtractedFieldsOnOneLine`) |
| GitSignatureCheck.ExtractTagName | src/Roave/ComposerGpgVerify/Package/Git/GitSignatureCheck.php:176-188 | the first truthy tag-name capture over the lines; see `TagCheckName` |
| GitSignatureCheck.ExtractKeyIdentifier | src/Roave/ComposerGpgVerify/Package/Git/GitSignatureCheck.php:190-202 | the first truthy key capture over the lines; see `KeyIdentifierFound` |
| GitSignatureCheck.ExtractSignatureAuthor | src/Roave/ComposerGpgVerify/Package/Git/GitSignatureCheck.php:204-216 | the first truthy author capture over the lines; see `FirstTruthyCapture` and `ExtractedFieldsOnOneLine` |
| GitSignatureCheck.SignatureValidationHasNoWarnings | src/Roave/ComposerGpgVerify/Package/Git/GitSignatureCheck.php:218-226 | no line of the output contains `gpg: WARNING: `; `NoWarningsIffNoMarker` proves this the same as the whole output not containing it |
| GitSignatureCheck.SignatureCheck.CanBeTrusted | src/Roave/ComposerGpgVerify/Package/Git/GitSignatureCheck.php:157-160 | a check can be trusted exactly when it is verified; the factories' contracts give "trusted implies signed" |
| GitSignatureCheck.SignatureCheck.Header | src/Roave/ComposerGpgVerify/Package/Git/GitSignatureCheck.php:69-74 | the two labels, then the commit, tag, author and key parts, blank when falsy; see `HeaderLabels` and `HeaderOnOneLine` |
| GitSignatureCheck.SignatureCheck.AsHumanReadableString | src/Roave/ComposerGpgVerify/Package/Git/GitSignatureCheck.php:64-80 | the header, command, exit code and output joined by line breaks; see `HumanReadableLines` |
| GitSignatureCheck.HumanReadableLines | src/Roave/ComposerGpgVerify/Package/Git/GitSignatureCheck.php:64-80 | for fields and a command without line breaks, the report splits into the header, `Command: ` and the command, `Exit code: ` and the exit code, then the lines of `Output: ` and the output; the exit code reads back from its line |
| Package.FromPackageAndSignatureChecks | src/Roave/ComposerGpgVerify/Package/GitPackage.php:34-40 | the package holds at least one check: the first check first, then the further ones in order; its name is the given one |
| Package.FromNonGitPackage | src/Roave/ComposerGpgVerify/Package/UnknownPackageFormat.php:27-40 | the name is the given one, and the package is never verified |
| Package.GitPackageVerifiedIffSomeCheckTrusted | src/Roave/ComposerGpgVerify/Package/GitPackage.php:47-50 | a git package is verified iff some check can be trusted |
| Package.PassedChecksMembers | src/Roave/ComposerGpgVerify/Package/GitPackage.php:84-92 | the passed checks are exactly the trusted checks |
| Package.FailedChecksMembers | src/Roave/ComposerGpgVerify/Package/GitPackage.php:97-105 | the failed checks are exactly the untrusted ones |
| Package.PassedChecksConcat | src/Roave/ComposerGpgVerify/Package/GitPackage.php:84-92 | filtering distributes over concatenation, so the passed checks keep their relative order |
| Package.FailedChecksConcat | src/Roave/ComposerGpgVerify/Package/GitPackage.php:97-105 | likewise for the failed checks |
| Package.ChecksPartition | src/Roave/ComposerGpgVerify/Package/GitPackage.php:84-105 | the passed and failed checks together are a permutation of the checks (as multisets) |
| Package.NoneTrustedAllFailed | src/Roave/ComposerGpgVerify/Package/GitPackage.php:97-105 | with no trusted check, the failed checks are all the checks, in order, and none passed |
| Package.GitPackageReason | src/Roave/ComposerGpgVerify/Package/GitPackage.php:52-79 | a verified package's reason opens with the "passed" headline and a blank line; an unverified one's is the "have failed" headline, a blank line, then every check's report joined by blank lines |
| Package.SingleTrustedCheckReason | src/Roave/ComposerGpgVerify/Package/GitPackage.php:54-66 | with one trusted check, the reason is the "passed" headline, a blank line and that check's report |
| Package.GitPackageReasonListsDecidingChecks | src/Roave/ComposerGpgVerify/Package/GitPackage.php:52-79 | every check on the deciding side (trusted if verified, untrusted otherwise) has its report in the reason |
| Package.UnknownPackageReason | src/Roave/ComposerGpgVerify/Package/UnknownPackageFormat.php:42-49 | an unknown-format package is unverified, keeps its name, and its reason names it between `Package "` and the fixed explanation |
| Package.PackageVerification.IsVerified | src/Roave/ComposerGpgVerify/Package/GitPackage.php:47-50 | a git package is verified when its passed checks are not empty, an unknown-format one never; see `GitPackageVerifiedIffSomeCheckTrusted` and `FromNonGitPackage` |
| Package.PackageVerification.PrintReason | src/Roave/ComposerGpgVerify/Package/GitPackage.php:52-79 | the headline for the verdict, a blank line, and the reports of the deciding checks joined by blank lines, or the unknown-format text; see `GitPackageReason` and `UnknownPackageReason` |
| Package.PassedChecks | src/Roave/ComposerGpgVerify/Package/GitPackage.php:84-92 | at most as many checks as given; which ones and in what order is `PassedChecksMembers` and `PassedChecksConcat` |
| Package.FailedChecks | src/Roave/ComposerGpgVerify/Package/GitPackage.php:97-105 | at most as many checks as given; see `FailedChecksMembers` and `FailedChecksConcat` |
| Package.Render | src/Roave/ComposerGpgVerify/Package/GitPackage.php:59-64 | one report per check, in order, each the check's human-readable string |
| PackagesTrustCheckFailed.FromFailedPackageVerifications | src/Roave/ComposerGpgVerify/Exception/PackagesTrustCheckFailed.php:12-29 | the message starts with the headline, a line break, and the first verification's reason |
| PackagesTrustCheckFailed.SingleFailure | src/Roave/ComposerGpgVerify/Exception/PackagesTrustCheckFailed.php:16-28 | with one verification, the message is the headline, a line break and its reason, with no trailing separator |
| PackagesTrustCheckFailed.AppendFailure | src/Roave/ComposerGpgVerify/Exception/PackagesTrustCheckFailed.php:19-25 | one more verification adds a blank line and its reason at the end, so reasons appear in argument order |
| PackagesTrustCheckFailed.MessageListsEveryReason | src/Roave/ComposerGpgVerify/Exception/PackagesTrustCheckFailed.php:19-25 | every verification's reason occurs in the message |
| PackagesTrustCheckFailed.HeadlineOnOneLine | src/Roave/ComposerGpgVerify/Exception/PackagesTrustCheckFailed.php:17 | the headline holds no line break |
| PackagesTrustCheckFailed.Reasons | src/Roave/ComposerGpgVerify/Exception/PackagesTrustCheckFailed.php:21-26 | one reason per verification, in order, each its `printReason` |
| Text.SplitLines | src/Roave/ComposerGpgVerify/Package/Git/GitSignatureCheck.php:170 | `explode("\n", s)`: at least one line; with `SplitLinesHaveNoBreaks` and `JoinSplitLines` it is the inverse of `Join` |
| Text.SplitLinesHaveNoBreaks | src/Roave/ComposerGpgVerify/Package/Git/GitSignatureCheck.php:170 | no line of `explode("\n", s)` holds a line break |
| Text.Join | src/Roave/ComposerGpgVerify/Verify.php:134 | `implode(sep, xs)`; its partner is `SplitLines` through `JoinSplitLines` and `SplitLinesJoin` |
| Text.JoinSplitLines | src/Roave/ComposerGpgVerify/Package/Git/GitSignatureCheck.php:170 | joining the lines of a text with line breaks gives the text back |
| Text.SplitLinesJoin | src/Roave/ComposerGpgVerify/Verify.php:134 | splitting the join of newline-free lines gives the lines back |
| Text.IntToString | src/Roave/ComposerGpgVerify/Package/Git/GitSignatureCheck.php:76 | PHP's decimal rendering of an integer; see `IntToStringReadsBack` |
| Text.NatToStringDigits | src/Roave/ComposerGpgVerify/Package/Git/GitSignatureCheck.php:76 | the decimal digits of a natural number: at least one, a leading zero only for 0, one digit exactly below 10, and they read back as the number |
| Text.IntToStringReadsBack | src/Roave/ComposerGpgVerify/Package/Git/GitSignatureCheck.php:76 | a rendered integer reads back as itself under the canonical decimal reader `ReadInt` (optional `-`, no leading zero), and holds no line break |
| Verify.Verify | src/Roave/ComposerGpgVerify/Verify.php:46-179 | the imperative pass: the settings check, the loop over directories with its tag loop and its table writes, and the report; its outcome equals that of `VerifyOutcomeOf` on the same inputs |
| Verify.AssertSourceInstallation | src/Roave/ComposerGpgVerify/Verify.php:202-212 | an error message is produced iff the setting is not exactly `source` |
| Verify.NonSourceInstallRejected | src/Roave/ComposerGpgVerify/Verify.php:51 | any other setting fails with the `preferred-install` message whatever the directories, and the setting reads back from between its quotes |
| Verify.IndexOf | src/Roave/ComposerGpgVerify/Verify.php:72 | the position of a key in the table is its first occurrence, and "absent" means no entry has it |
| Verify.PutLookup | src/Roave/ComposerGpgVerify/Verify.php:131 | writing a key changes what that key reads and nothing else |
| Verify.PutKeys | src/Roave/ComposerGpgVerify/Verify.php:131 | writing keeps every key in place and appends a new key at the end; distinct keys stay distinct |
| Verify.RunDistinctNames | src/Roave/ComposerGpgVerify/Verify.php:64-137 | no package name is recorded twice |
| Verify.NoWarningsOfJoinedLines | src/Roave/ComposerGpgVerify/Verify.php:185-193 | scanning a list of lines for the marker gives the same answer as the string-based scan on the text they form |
| Verify.NoWarningsConcat | src/Roave/ComposerGpgVerify/Verify.php:185-193 | a list of lines is warning-free iff both of its parts are |
| Verify.TagLoopFails | src/Roave/ComposerGpgVerify/Verify.php:110-128 | when no tag clears the flag, no tag passes, the package keeps its output, and each truthy tag's lines are appended to the tag output |
| Verify.TagLoopPasses | src/Roave/ComposerGpgVerify/Verify.php:110-128 | when a tag clears the flag, it is the first tag that does, and the whole tag output gathered up to it is appended to the package's output |
| Verify.TagLoopVerdict | src/Roave/ComposerGpgVerify/Verify.php:110-128 | the tag loop clears the flag iff some truthy-named tag exits with 0 and no warning is in the tag output gathered up to it |
| Verify.StepRow | src/Roave/ComposerGpgVerify/Verify.php:64-136 | what one directory writes: a non-directory writes nothing; without `.git` every column is false; a passing commit check records the commit lines, verified; when it fails and some tag clears the flag, the row holds the commit lines followed by all the tag output gathered up to the first such tag, verified, and the tag output is left at that; when no tag does, the commit lines alone, unverified, with every truthy tag's lines added to the tag output; `signed` is whether the recorded lines are non-empty; no other key changes |
| Verify.LastWriteWins | src/Roave/ComposerGpgVerify/Verify.php:64-137 | a package's row is the one written by the last directory with its name |
| Verify.NonGitPackageReported | src/Roave/ComposerGpgVerify/Verify.php:71-80 | a directory without `.git` (not overwritten later) is reported, and the pass fails |
| Verify.UnsignedNames | src/Roave/ComposerGpgVerify/Verify.php:149-154 | the collected names are exactly the keys of unsigned rows |
| Verify.UnverifiedNames | src/Roave/ComposerGpgVerify/Verify.php:156-161 | the collected names are exactly the keys of unverified rows |
| Verify.Unique | src/Roave/ComposerGpgVerify/Verify.php:166 | `array_unique` keeps the same set of values and leaves no duplicates |
| Verify.UniqueAppend | src/Roave/ComposerGpgVerify/Verify.php:166 | de-duplicating two duplicate-free lists keeps the first list, then the new elements of the second, in order |
| Verify.EscapesAreTheOffenders | src/Roave/ComposerGpgVerify/Verify.php:145-166 | a name is reported iff its row is unsigned or unverified, and no name is reported twice |
| Verify.EscapesOrder | src/Roave/ComposerGpgVerify/Verify.php:149-166 | with distinct keys, the report is the unsigned names in table order, then the signed-but-unverified names in table order |
| Verify.RunEscapesOrder | src/Roave/ComposerGpgVerify/Verify.php:64-166 | that order holds for the table of every run |
| Verify.PassedIffAllSignedAndVerified | src/Roave/ComposerGpgVerify/Verify.php:168-170 | with setting `source`, the pass returns normally iff every recorded row is signed and verified |
| Verify.TrustFailureMessageLines | src/Roave/ComposerGpgVerify/Verify.php:174-178 | the failure message splits into the headline, then one reported name per line |
| Verify.TagLoopFreshVerdict | src/Roave/ComposerGpgVerify/Verify.php:109-128 | corrected loop: the flag is cleared iff some tag passes on its own output; the lines of the first such tag are appended, and on failure the output is unchanged |
| Verify.RowFreshVerdict | src/Roave/ComposerGpgVerify/Verify.php:71-136 | corrected pass: without `.git` every column is false; otherwise verified iff the commit check passes or some tag passes on its own; the recorded lines are the commit lines, followed by the lines of the first tag that passes on its own when the commit check fails; `signed` is whether they are non-empty |
| Verify.RunFreshRow | src/Roave/ComposerGpgVerify/Verify.php:64-137 | corrected pass: a package's row depends on its own directory alone, whatever came before |
| Verify.AsWrittenNeverTrustsMore | src/Roave/ComposerGpgVerify/Verify.php:110-128 | whatever tag output came before, a tag loop the code as written passes also passes in the corrected loop |
| Verify.StepNeverTrustsMore | src/Roave/ComposerGpgVerify/Verify.php:64-136 | a package the pass as written records as verified, the corrected pass records as verified too |
| Verify.EarlierTagWarningRejectsGoodTag | src/Roave/ComposerGpgVerify/Verify.php:110-128 | counterexample: tag `v1` warns and `v2` passes on its own, yet the package fails as written; the corrected loop accepts it |
| Verify.WarningCarriesIntoNextPackage | src/Roave/ComposerGpgVerify/Verify.php:64-137 | counterexample: a warning in package `acme/one`'s tag makes `acme/two`'s good tag fail, and `acme/two` is reported; the corrected pass verifies it |
| Verify.Put | src/Roave/ComposerGpgVerify/Verify.php:131-136 | `$packages[$name] = $row`; see `PutLookup` and `PutKeys` |
| Verify.Lookup | src/Roave/ComposerGpgVerify/Verify.php:131-136 | what the table holds for a name, if anything; see `PutLookup` |
| Verify.NoWarnings | src/Roave/ComposerGpgVerify/Verify.php:185-193 | no line contains `gpg: WARNING: `; see `NoWarningsOfJoinedLines` and `NoWarningsConcat` |
| Verify.CheckFailed | src/Roave/ComposerGpgVerify/Verify.php:95 | the failure flag after one git command: a non-zero exit code or a warning in the lines given |
| Verify.TagLoop | src/Roave/ComposerGpgVerify/Verify.php:110-128 | the tag loop over the gathered, never-reset tag output; see `TagLoopFails`, `TagLoopPasses` and `TagLoopVerdict` |
| Verify.GitOutcome | src/Roave/ComposerGpgVerify/Verify.php:83-129 | the commit check, and the tag loop only when it failed; see `StepRow` |
| Verify.Step | src/Roave/ComposerGpgVerify/Verify.php:64-137 | one iteration of the loop over the directories; see `StepRow` |
| Verify.Run | src/Roave/ComposerGpgVerify/Verify.php:62-137 | the table and tag output after every directory, in order; see `RunDistinctNames`, `LastWriteWins` and `RunEscapesOrder` |
| Verify.Escapes | src/Roave/ComposerGpgVerify/Verify.php:149-166 | the unsigned names followed by the unverified ones, de-duplicated; see `EscapesAreTheOffenders` and `EscapesOrder` |
| Verify.TrustFailureMessage | src/Roave/ComposerGpgVerify/Verify.php:174-178 | the headline, a line break and the reported names joined by line breaks; see `TrustFailureMessageLines` |
| Verify.VerifyOutcomeOf | src/Roave/ComposerGpgVerify/Verify.php:46-179 | the outcome of the pass, as a function of the setting and the directories; see `PassedIffAllSignedAndVerified` and `NonSourceInstallRejected` |
| Verify.FailedTagLinesMarkSigned | src/Roave/ComposerGpgVerify/Verify.php:110-136 | counterexample: with an empty commit output, the lines of a failed tag `v1` make the row signed when `v2` passes, so the pass succeeds; the corrected pass records no lines and reports the package as unsigned |

## Left out

- Running `git` (`exec` of `verify-commit`, `tag --points-at`, `tag -v`), `GlobIterator`,
  `isDir`, `is_dir`, `realpath`, `basename` and `escapeshellarg`: these are process and
  filesystem I/O. Their results are the fields of `VendorDir`, and the package name is given
  as a string.
- `exec` strips trailing whitespace from every line. The model takes the lines as they come
  back from `exec`, not as the tool printed them.
- The list of tags at HEAD is the input `tags`, already split into lines. Its own exit code is
  ignored, as in the source.
- Composer plugin wiring (`getSubscribedEvents`, `activate`), `Event`, `Config` and
  `PackageInterface`: replaced by plain strings and values. The `preferred-install` setting is
  the string that the `(string)` cast produces.
- The exception classes (`LogicException`, `RuntimeException`, `PackagesTrustCheckFailed`) are
  modelled by their messages. In `Verify` they are `Outcome` variants; `PackagesTrustCheckFailed`
  is modelled by its message function.
- `PreferredInstallIsNotSource` is not part of this model, because its message is built with
  `json_encode`, whose escaping rules are not visible here.
- `src/ComposerGpgVerify/Verify.php` is not part of this model. It is a superseded prototype
  that only dumps its result to the console.
- The regular expressions are modelled as four hand-written line matchers, each proved against
  a declarative description of its pattern. A general PCRE engine is not modelled. The patterns
  are treated as ASCII, case-insensitive and matched within one line, which holds because no
  line of `explode("\n", ...)` contains a line break.
- `GitSignatureCheck.FromGitCommitCheck`, `GitSignatureCheck.FromGitTagCheck`: `exitCode` is an
  unbounded integer, not PHP's 64-bit `int`. It is compared with 0 and printed in decimal.
  For every value a 64-bit `int` can hold, both agree with PHP, so nothing depends on the
  width.
- The unit test of `GitSignatureCheck` expects an empty human-readable string for an empty
  output. The code always yields the four-line report (`GitSignatureCheck.HumanReadableLines`)
  and an unsigned check (`GitSignatureCheck.EmptyOutputNotSigned`); the model follows the code.
- The integration tests, which create real GPG keys and repositories and set `GNUPGHOME` and
  `LANGUAGE`, are not modelled; they served only as evidence of the expected outcomes.
- The `allow-unsigned`/`allow-untrusted` exclusion lists are commented out in the source and
  are always empty. The model drops the `array_diff` against them.

## Findings

| source | as written | input that shows it | evidently intended | confidence | as-written member | corrected member |
|---|---|---|---|---|---|---|
| src/Roave/ComposerGpgVerify/Verify.php:110-128 | `$tagSignatureOutput` is passed to `exec` by reference and never reset. `exec` appends to it, so each tag's warning scan sees the output of every earlier tag, in this package and in every earlier package, and a passing tag adds all of it to the package's output (line 124). | One package whose commit check exits with 1, tag `v1` printing `gpg: WARNING: untrusted` and tag `v2` printing `gpg: Good signature`, both exiting with 0: `v2` passes on its own, yet the package is recorded unverified. Likewise `acme/one` with the warning tag, then `acme/two` with only the good tag: `acme/two` is reported. | Each tag is judged on its own `git tag -v` output ("see if at least one is signed", line 109), and packages do not influence each other. | not executed | Verify.EarlierTagWarningRejectsGoodTag | Verify.TagLoopFreshVerdict |
| src/Roave/ComposerGpgVerify/Verify.php:123-133 | The same never-reset buffer is what line 124 merges into `$output` when a tag passes, so the lines of tags that failed before it count towards `'signed' => (bool) $output`. | A package whose commit check exits with 1 and prints nothing, tag `v1` exiting with 1 and printing `error: no signature found`, tag `v2` exiting with 0 and printing nothing: the row is signed and verified and the pass succeeds, though no line of the passing check was printed. | The recorded output is the commit check's output and that of the tag that passed, nothing else. | not executed; needs a passing tag check with no output | Verify.FailedTagLinesMarkSigned | Verify.RowFreshVerdict |

For the `verified` column the defect only ever rejects: a package the code as written records
as verified, the corrected pass verifies too. `Verify.AsWrittenNeverTrustsMore` and
`Verify.StepNeverTrustsMore` prove this. The `signed` column can go the other way, as the second
row shows. The cross-package
case is `Verify.WarningCarriesIntoNextPackage`, and the corrected whole pass is
`Verify.RowFresh`/`Verify.RunFresh`, proved by `Verify.RowFreshVerdict` and `Verify.RunFreshRow`.
`Verify.Verify` models the code as written.
