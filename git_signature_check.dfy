/**
 * One signature check: the captured result of `git verify-commit --verbose HEAD` or
 * `git tag -v <tag>` (command, exit code, merged output), the facts extracted from the
 * output line by line, and the two derived verdicts `isSigned` and `isVerified`.
 */
module GitSignatureCheck {
  import opened Text

  /** The marker gpg prints when a signature is made by a key that is not certified as trusted. */
  const WarningMarker := "gpg: WARNING: "

  datatype SignatureCheck = SignatureCheck(
    packageName: string,
    commitHash: Option<string>,
    tagName: Option<string>,
    command: string,
    exitCode: int,
    output: string,
    isSigned: bool,
    isVerified: bool,
    signatureAuthor: Option<string>,
    signatureKey: Option<string>)
  {
    predicate CanBeTrusted() {
      isVerified
    }

    /** The one-line summary that opens the human-readable form. */
    function Header(): string {
      SignedLabel() + " " + VerifiedLabel() + " " + Details()
    }

    function SignedLabel(): string {
      if isSigned || Truthy(signatureKey) then "[SIGNED]" else "[NOT SIGNED]"
    }

    function VerifiedLabel(): string {
      if isVerified then "[VERIFIED]" else "[NOT VERIFIED]"
    }

    /** The commit, tag, author and key parts of the header; an absent or falsy field is blank. */
    function Details(): string {
      (if Truthy(commitHash) then "Commit #" + commitHash.value else "")
      + " " + (if Truthy(tagName) then "Tag " + tagName.value else "")
      + " " + (if Truthy(signatureAuthor) then "By \"" + signatureAuthor.value + "\"" else "")
      + " " + (if Truthy(signatureKey) then "(Key " + signatureKey.value + ")" else "")
    }

    function AsHumanReadableString(): string {
      Join("\n", [
        Header(),
        "Command: " + command,
        "Exit code: " + IntToString(exitCode),
        "Output: " + output
      ])
    }

    /** None of the extracted fields spans a line break. */
    predicate FieldsOnOneLine() {
      (commitHash.Some? ==> '\n' !in commitHash.value)
      && (tagName.Some? ==> '\n' !in tagName.value)
      && (signatureAuthor.Some? ==> '\n' !in signatureAuthor.value)
      && (signatureKey.Some? ==> '\n' !in signatureKey.value)
    }
  }

  // ----- character classes -----

  predicate IsHex(c: char) {
    '0' <= c <= '9' || 'a' <= c <= 'f' || 'A' <= c <= 'F'
  }

  predicate AllHex(s: string) {
    forall i :: 0 <= i < |s| ==> IsHex(s[i])
  }

  /** The longest prefix of `s` made of hex digits (a greedy `[a-fA-F0-9]+`, or empty). */
  function HexRun(s: string): (r: string)
    ensures |r| <= |s| && r == s[..|r|] && AllHex(r)
    ensures |r| < |s| ==> !IsHex(s[|r|])
  {
    if |s| == 0 || !IsHex(s[0]) then "" else [s[0]] + HexRun(s[1..])
  }

  // ----- the four line matchers, one per regular expression -----

  /** `/^(tree|object) ([a-fA-F0-9]{40})$/i` matches `line` and captures `hash`. */
  ghost predicate CommitHashLine(line: string, hash: string) {
    |line| >= 41 && hash == line[|line| - 40..] && AllHex(hash) && line[|line| - 41] == ' '
    && (CiEqual(line[..|line| - 41], "tree") || CiEqual(line[..|line| - 41], "object"))
  }

  function CommitHashCapture(line: string): Option<string> {
    if |line| == 45 && CiMatchAt(line, 0, "tree ") && AllHex(line[5..]) then Some(line[5..])
    else if |line| == 47 && CiMatchAt(line, 0, "object ") && AllHex(line[7..]) then Some(line[7..])
    else None
  }

  /** `/^tag (.+)$/i` matches `line` and captures `name`. */
  ghost predicate TagLine(line: string, name: string) {
    |line| > 4 && CiEqual(line[..4], "tag ") && name == line[4..]
  }

  function TagNameCapture(line: string): Option<string> {
    if |line| > 4 && CiMatchAt(line, 0, "tag ") then Some(line[4..]) else None
  }

  /** ` key ` at index `k`, followed by at least one hex digit. */
  predicate KeyMarkerAt(line: string, k: int) {
    CiMatchAt(line, k, " key ") && k + 5 < |line| && IsHex(line[k + 5])
  }

  /**
   * One way for `/gpg:.*using .* key ([a-fA-F0-9]+)/i` to match `line`: `gpg:` at `g`,
   * `using ` at `u` and ` key ` plus a hex digit at `k`, in that order and not overlapping.
   */
  ghost predicate KeyMatch(line: string, g: int, u: int, k: int) {
    CiMatchAt(line, g, "gpg:") && g + 4 <= u && CiMatchAt(line, u, "using ") && u + 6 <= k
    && KeyMarkerAt(line, k)
  }

  /** The last key marker at or before `hi`. */
  function LastKeyMarker(line: string, hi: int): (r: Option<nat>)
    ensures r.Some? ==> r.value <= hi && KeyMarkerAt(line, r.value)
    ensures r.Some? ==> forall k :: r.value < k <= hi ==> !KeyMarkerAt(line, k)
    ensures r.None? ==> forall k :: k <= hi ==> !KeyMarkerAt(line, k)
    decreases hi
  {
    if hi < 0 then None
    else if KeyMarkerAt(line, hi) then Some(hi)
    else LastKeyMarker(line, hi - 1)
  }

  /**
   * The capture of the key pattern. The first `.*` is greedy, so the engine settles on the
   * last ` key ` marker that still leaves room for `using ` after the first `gpg:`, and
   * `[a-fA-F0-9]+` takes every hex digit after it.
   */
  function KeyCapture(line: string): Option<string> {
    match FindFirstCi(line, "gpg:", 0)
    case None => None
    case Some(g) =>
      match LastKeyMarker(line, |line|)
      case None => None
      case Some(k) =>
        match FindFirstCi(line, "using ", g + 4)
        case None => None
        case Some(u) => if u + 6 <= k then Some(HexRun(line[k + 5..])) else None
  }

  const AuthorPrefix := "gpg: Good signature from \""

  /**
   * One way for `/gpg: Good signature from "(.+)" \[.*\]/i` to match `line`: the prefix at
   * `p`, a non-empty capture up to the `" [` at `e`, and a `]` at `b`.
   */
  ghost predicate AuthorMatch(line: string, p: int, e: int, b: int) {
    CiMatchAt(line, p, AuthorPrefix) && p + |AuthorPrefix| < e && CiMatchAt(line, e, "\" [")
    && e + 3 <= b && CiMatchAt(line, b, "]")
  }

  /**
   * The capture of the author pattern. The match starts at the first prefix; the greedy
   * `(.+)` runs to the last `" [` that still has a `]` somewhere after it.
   */
  function AuthorCapture(line: string): Option<string> {
    match FindFirstCi(line, AuthorPrefix, 0)
    case None => None
    case Some(p) =>
      match FindLastCi(line, "]", 0, |line| - 1)
      case None => None
      case Some(b) =>
        match FindLastCi(line, "\" [", p + |AuthorPrefix| + 1, b - 3)
        case None => None
        case Some(e) => Some(line[p + |AuthorPrefix|..e])
  }

  // ----- extraction: first truthy capture over the lines -----

  /**
   * `reset(array_filter(array_map($capture, $lines))) ?: null`: the capture of the first line
   * whose capture is a truthy string; "" and "0" captures are dropped.
   */
  function FirstTruthyCapture(lines: seq<string>, capture: string -> Option<string>): (r: Option<string>)
    ensures r.Some? ==> IsTruthy(r.value)
    ensures r.Some? ==>
      exists i :: 0 <= i < |lines| && capture(lines[i]) == r && (forall j :: 0 <= j < i ==> !Truthy(capture(lines[j])))
    ensures r.None? ==> forall i :: 0 <= i < |lines| ==> !Truthy(capture(lines[i]))
  {
    if |lines| == 0 then None
    else if Truthy(capture(lines[0])) then capture(lines[0])
    else
      var r := FirstTruthyCapture(lines[1..], capture);
      assert forall i :: 1 <= i < |lines| ==> lines[i] == lines[1..][i - 1];
      r
  }

  function ExtractCommitHash(output: string): Option<string> {
    FirstTruthyCapture(SplitLines(output), CommitHashCapture)
  }

  function ExtractTagName(output: string): Option<string> {
    FirstTruthyCapture(SplitLines(output), TagNameCapture)
  }

  function ExtractKeyIdentifier(output: string): Option<string> {
    FirstTruthyCapture(SplitLines(output), KeyCapture)
  }

  function ExtractSignatureAuthor(output: string): Option<string> {
    FirstTruthyCapture(SplitLines(output), AuthorCapture)
  }

  /** No line of the output contains the warning marker (case-sensitive `strpos`). */
  predicate SignatureValidationHasNoWarnings(output: string) {
    var lines := SplitLines(output);
    forall i :: 0 <= i < |lines| ==> !Contains(lines[i], WarningMarker)
  }

  // ----- the two factories -----

  function FromGitCommitCheck(packageName: string, command: string, exitCode: int, output: string): (r: SignatureCheck)
    ensures r.CanBeTrusted() ==> r.isSigned
    ensures r.isSigned ==> exitCode == 0 && Truthy(r.signatureKey)
    ensures r.tagName == None
    ensures r.packageName == packageName && r.command == command && r.exitCode == exitCode && r.output == output
    ensures r.FieldsOnOneLine()
  {
    var signatureKey := ExtractKeyIdentifier(output);
    var signed := signatureKey.Some? && exitCode == 0;
    ExtractedFieldsOnOneLine(output);
    SignatureCheck(
      packageName,
      ExtractCommitHash(output),
      None,
      command,
      exitCode,
      output,
      signed,
      signed && SignatureValidationHasNoWarnings(output),
      ExtractSignatureAuthor(output),
      signatureKey)
  }

  function FromGitTagCheck(packageName: string, command: string, exitCode: int, output: string): (r: SignatureCheck)
    ensures r.CanBeTrusted() ==> r.isSigned
    ensures r.isSigned ==> exitCode == 0 && Truthy(r.signatureKey)
    ensures r.packageName == packageName && r.command == command && r.exitCode == exitCode && r.output == output
    ensures r.FieldsOnOneLine()
  {
    var signatureKey := ExtractKeyIdentifier(output);
    var signed := signatureKey.Some? && exitCode == 0;
    ExtractedFieldsOnOneLine(output);
    SignatureCheck(
      packageName,
      ExtractCommitHash(output),
      ExtractTagName(output),
      command,
      exitCode,
      output,
      signed,
      signed && SignatureValidationHasNoWarnings(output),
      ExtractSignatureAuthor(output),
      ExtractKeyIdentifier(output))
  }

  // ----- properties of the matchers -----

  /**
   * The commit-hash matcher accepts exactly the lines the anchored pattern matches, and
   * what it captures is 40 hex digits, so it is never dropped as falsy.
   */
  lemma CommitHashCaptureMatchesPattern(line: string)
    ensures CommitHashCapture(line).Some? ==> CommitHashLine(line, CommitHashCapture(line).value)
    ensures CommitHashCapture(line).Some? ==> |CommitHashCapture(line).value| == 40 && Truthy(CommitHashCapture(line))
    ensures CommitHashCapture(line).None? ==> forall hash :: !CommitHashLine(line, hash)
  {
    var r := CommitHashCapture(line);
    if |line| >= 41 {
      var n := |line| - 41;
      CiMatchAppend(line, 0, line[..n], " ");
      if n == 4 {
        CiMatchAppend(line, 0, "tree", " ");
        assert "tree" + " " == "tree ";
        CiEqualPrefix(line, "tree");
      } else if n == 6 {
        CiMatchAppend(line, 0, "object", " ");
        assert "object" + " " == "object ";
        CiEqualPrefix(line, "object");
      }
      SingleCharCiMatch(line, n, ' ');
    }
    if r.Some? {
      assert r.value[0] != '0' || r.value != "0";
    }
  }

  /** The tag matcher accepts exactly the lines the anchored `tag (.+)` pattern matches. */
  lemma TagNameCaptureMatchesPattern(line: string)
    ensures TagNameCapture(line).Some? ==> TagLine(line, TagNameCapture(line).value) && |TagNameCapture(line).value| > 0
    ensures TagNameCapture(line).None? ==> forall name :: !TagLine(line, name)
  {
    if |line| > 4 {
      CiEqualPrefix(line, "tag ");
    }
  }

  /** Any way the key pattern can match makes the key matcher succeed. */
  lemma KeyMatchCaptured(line: string, g: int, u: int, k: int)
    requires KeyMatch(line, g, u, k)
    ensures KeyCapture(line).Some?
  {
    var first := FindFirstCi(line, "gpg:", 0);
    assert first.Some? && first.value <= g;
    var last := LastKeyMarker(line, |line|);
    assert last.Some? && k <= last.value;
    var using := FindFirstCi(line, "using ", first.value + 4);
    assert using.Some? && using.value <= u;
  }

  /**
   * When the key matcher succeeds, the pattern matches at the first `gpg:`, the first `using `
   * after it and the last ` key ` marker, and the capture is the hex run after that marker.
   */
  lemma KeyCaptureIsMatch(line: string) returns (g: nat, u: nat, k: nat)
    requires KeyCapture(line).Some?
    ensures KeyMatch(line, g, u, k)
    ensures forall k' :: k < k' ==> !KeyMarkerAt(line, k')
    ensures KeyCapture(line).value == HexRun(line[k + 5..])
    ensures KeyCapture(line).value != "" && AllHex(KeyCapture(line).value)
  {
    g := FindFirstCi(line, "gpg:", 0).value;
    k := LastKeyMarker(line, |line|).value;
    u := FindFirstCi(line, "using ", g + 4).value;
    forall k' | k < k' ensures !KeyMarkerAt(line, k') {
      if k' > |line| {
        assert !CiMatchAt(line, k', " key ");
      }
    }
    assert IsHex(line[k + 5..][0]);
  }

  /**
   * The key matcher succeeds exactly when the unanchored pattern has some match, and then
   * captures the whole hex run after the last ` key ` marker of the line.
   */
  lemma KeyCaptureMatchesPattern(line: string)
    ensures KeyCapture(line).Some? <==> exists g, u, k :: KeyMatch(line, g, u, k)
    ensures KeyCapture(line).Some? ==>
      exists k :: KeyMarkerAt(line, k) && (forall k' :: k < k' ==> !KeyMarkerAt(line, k'))
        && KeyCapture(line).value == HexRun(line[k + 5..])
    ensures KeyCapture(line).Some? ==> KeyCapture(line).value != "" && AllHex(KeyCapture(line).value)
  {
    if exists g, u, k :: KeyMatch(line, g, u, k) {
      var g, u, k :| KeyMatch(line, g, u, k);
      KeyMatchCaptured(line, g, u, k);
    }
    if KeyCapture(line).Some? {
      var g, u, k := KeyCaptureIsMatch(line);
      assert KeyMarkerAt(line, k);
    }
  }

  /** Any way the author pattern can match makes the author matcher succeed. */
  lemma AuthorMatchCaptured(line: string, p: int, e: int, b: int)
    requires AuthorMatch(line, p, e, b)
    ensures AuthorCapture(line).Some?
  {
    var first := FindFirstCi(line, AuthorPrefix, 0);
    assert first.Some? && first.value <= p;
    var bracket := FindLastCi(line, "]", 0, |line| - 1);
    assert bracket.Some? && b <= bracket.value;
    var close := FindLastCi(line, "\" [", first.value + |AuthorPrefix| + 1, bracket.value - 3);
    assert close.Some?;
  }

  /**
   * When the author matcher succeeds, the pattern matches from the first prefix to the last
   * usable `" [`, and the capture is the text between them.
   */
  lemma AuthorCaptureIsMatch(line: string) returns (p: nat, e: nat, b: nat)
    requires AuthorCapture(line).Some?
    ensures AuthorMatch(line, p, e, b) && AuthorCapture(line).value == line[p + |AuthorPrefix|..e]
    ensures forall p' :: 0 <= p' < p ==> !CiMatchAt(line, p', AuthorPrefix)
    ensures forall e', b' :: AuthorMatch(line, p, e', b') ==> e' <= e
  {
    p := FindFirstCi(line, AuthorPrefix, 0).value;
    b := FindLastCi(line, "]", 0, |line| - 1).value;
    e := FindLastCi(line, "\" [", p + |AuthorPrefix| + 1, b - 3).value;
    forall e', b' | AuthorMatch(line, p, e', b') ensures e' <= e {
      assert b' <= b;
    }
  }

  /**
   * The author matcher succeeds exactly when the unanchored pattern has some match; it then
   * captures from the first prefix up to the last `" [` that still has a `]` after it.
   */
  lemma AuthorCaptureMatchesPattern(line: string)
    ensures AuthorCapture(line).Some? <==> exists p, e, b :: AuthorMatch(line, p, e, b)
    ensures AuthorCapture(line).Some? ==> |AuthorCapture(line).value| > 0
  {
    if exists p, e, b :: AuthorMatch(line, p, e, b) {
      var p, e, b :| AuthorMatch(line, p, e, b);
      AuthorMatchCaptured(line, p, e, b);
    }
    if AuthorCapture(line).Some? {
      var p, e, b := AuthorCaptureIsMatch(line);
    }
  }

  /** A piece of a newline-free line is newline-free. */
  lemma SliceOnOneLine(line: string, a: int, b: int)
    requires '\n' !in line && 0 <= a <= b <= |line|
    ensures '\n' !in line[a..b]
  {
  }

  /** What a matcher captures lies within its line, so it has no line break. */
  lemma CapturesOnOneLine(line: string)
    requires '\n' !in line
    ensures CommitHashCapture(line).Some? ==> '\n' !in CommitHashCapture(line).value
    ensures TagNameCapture(line).Some? ==> '\n' !in TagNameCapture(line).value
    ensures KeyCapture(line).Some? ==> '\n' !in KeyCapture(line).value
    ensures AuthorCapture(line).Some? ==> '\n' !in AuthorCapture(line).value
  {
    if |line| == 45 { SliceOnOneLine(line, 5, 45); }
    if |line| == 47 { SliceOnOneLine(line, 7, 47); }
    if |line| > 4 { SliceOnOneLine(line, 4, |line|); }
    KeyCaptureOnOneLine(line);
    AuthorCaptureOnOneLine(line);
  }

  lemma KeyCaptureOnOneLine(line: string)
    requires '\n' !in line
    ensures KeyCapture(line).Some? ==> '\n' !in KeyCapture(line).value
  {
    var k := LastKeyMarker(line, |line|);
    if k.Some? {
      var rest := line[k.value + 5..];
      SliceOnOneLine(line, k.value + 5, |line|);
      SliceOnOneLine(rest, 0, |HexRun(rest)|);
    }
  }

  lemma AuthorCaptureOnOneLine(line: string)
    requires '\n' !in line
    ensures AuthorCapture(line).Some? ==> '\n' !in AuthorCapture(line).value
  {
    if AuthorCapture(line).Some? {
      var p := FindFirstCi(line, AuthorPrefix, 0).value;
      var b := FindLastCi(line, "]", 0, |line| - 1).value;
      var e := FindLastCi(line, "\" [", p + |AuthorPrefix| + 1, b - 3).value;
      SliceOnOneLine(line, p + |AuthorPrefix|, e);
    }
  }

  /** Every field the extractors produce comes from one line of the output. */
  lemma ExtractedFieldsOnOneLine(output: string)
    ensures ExtractCommitHash(output).Some? ==> '\n' !in ExtractCommitHash(output).value
    ensures ExtractTagName(output).Some? ==> '\n' !in ExtractTagName(output).value
    ensures ExtractKeyIdentifier(output).Some? ==> '\n' !in ExtractKeyIdentifier(output).value
    ensures ExtractSignatureAuthor(output).Some? ==> '\n' !in ExtractSignatureAuthor(output).value
  {
    var lines := SplitLines(output);
    SplitLinesHaveNoBreaks(output);
    forall i | 0 <= i < |lines| {
      CapturesOnOneLine(lines[i]);
    }
  }

  // ----- verdicts -----

  /** Some line of `output` yields a truthy key identifier. */
  predicate HasKeyLine(output: string) {
    var lines := SplitLines(output);
    exists i :: 0 <= i < |lines| && Truthy(KeyCapture(lines[i]))
  }

  /** Line-by-line warning detection finds exactly the warnings a search of the whole output finds. */
  lemma NoWarningsIffNoMarker(output: string)
    ensures SignatureValidationHasNoWarnings(output) <==> !Contains(output, WarningMarker)
  {
    var lines := SplitLines(output);
    if !SignatureValidationHasNoWarnings(output) {
      var i :| 0 <= i < |lines| && Contains(lines[i], WarningMarker);
      LineContainedIn(output, WarningMarker, i);
    }
    if Contains(output, WarningMarker) {
      assert '\n' !in WarningMarker;
      var i := LineContaining(output, WarningMarker);
    }
  }

  /** The key extraction fails exactly when no line has a truthy key capture. */
  lemma KeyIdentifierFound(output: string)
    ensures ExtractKeyIdentifier(output).Some? <==> HasKeyLine(output)
  {
    var lines := SplitLines(output);
    if HasKeyLine(output) {
      var i :| 0 <= i < |lines| && Truthy(KeyCapture(lines[i]));
      assert Truthy(KeyCapture(lines[i]));
    }
  }

  /**
   * A commit check is signed exactly when git exited with 0 and some line names a key, and
   * it can be trusted exactly when, in addition, gpg printed no warning anywhere.
   */
  lemma CommitCheckVerdicts(packageName: string, command: string, exitCode: int, output: string)
    ensures FromGitCommitCheck(packageName, command, exitCode, output).isSigned
      <==> exitCode == 0 && HasKeyLine(output)
    ensures FromGitCommitCheck(packageName, command, exitCode, output).CanBeTrusted()
      <==> exitCode == 0 && HasKeyLine(output) && !Contains(output, WarningMarker)
  {
    KeyIdentifierFound(output);
    NoWarningsIffNoMarker(output);
  }

  /**
   * A tag check carries exactly what a commit check of the same output carries, plus the
   * name from the first `tag` line; so its verdicts are the commit check's verdicts.
   */
  lemma TagCheckIsCommitCheckWithTag(packageName: string, command: string, exitCode: int, output: string)
    ensures FromGitTagCheck(packageName, command, exitCode, output)
      == FromGitCommitCheck(packageName, command, exitCode, output).(tagName := ExtractTagName(output))
    ensures FromGitTagCheck(packageName, command, exitCode, output).CanBeTrusted()
      <==> exitCode == 0 && HasKeyLine(output) && !Contains(output, WarningMarker)
  {
    CommitCheckVerdicts(packageName, command, exitCode, output);
  }

  /** The tag name of a tag check is the capture of the first line of the form `tag <name>` whose name is truthy. */
  lemma TagCheckName(packageName: string, command: string, exitCode: int, output: string)
    ensures var t := FromGitTagCheck(packageName, command, exitCode, output).tagName;
      t.Some? ==> IsTruthy(t.value) && exists i :: (0 <= i < |SplitLines(output)| && TagLine(SplitLines(output)[i], t.value)
        && forall j, name :: 0 <= j < i && TagLine(SplitLines(output)[j], name) ==> !IsTruthy(name))
    ensures var t := FromGitTagCheck(packageName, command, exitCode, output).tagName;
      t.None? ==> forall i, name :: 0 <= i < |SplitLines(output)| && TagLine(SplitLines(output)[i], name) ==> !IsTruthy(name)
  {
    var lines := SplitLines(output);
    var t := ExtractTagName(output);
    if t.Some? {
      var i :| 0 <= i < |lines| && TagNameCapture(lines[i]) == t && (forall j :: 0 <= j < i ==> !Truthy(TagNameCapture(lines[j])));
      TagNameCaptureMatchesPattern(lines[i]);
      forall j, name | 0 <= j < i && TagLine(lines[j], name) ensures !IsTruthy(name) {
        TagNameCaptureMatchesPattern(lines[j]);
      }
    } else {
      forall i, name | 0 <= i < |lines| && TagLine(lines[i], name) ensures !IsTruthy(name) {
        TagNameCaptureMatchesPattern(lines[i]);
        assert !Truthy(TagNameCapture(lines[i]));
      }
    }
  }

  /** A check of a package with no output at all (no git, no gpg) is neither signed nor trusted. */
  lemma EmptyOutputNotSigned(packageName: string, command: string, exitCode: int)
    ensures !FromGitCommitCheck(packageName, command, exitCode, "").isSigned
    ensures !FromGitTagCheck(packageName, command, exitCode, "").CanBeTrusted()
    ensures FromGitCommitCheck(packageName, command, exitCode, "").Header() == "[NOT SIGNED] [NOT VERIFIED]    "
  {
    EmptyOutputExtractsNothing();
    var c := FromGitCommitCheck(packageName, command, exitCode, "");
    assert c.SignedLabel() == "[NOT SIGNED]";
    assert c.VerifiedLabel() == "[NOT VERIFIED]";
    assert c.Details() == "   ";
  }

  /** An empty output yields no key, no commit hash and no author. */
  lemma EmptyOutputExtractsNothing()
    ensures ExtractKeyIdentifier("").None? && ExtractCommitHash("").None? && ExtractSignatureAuthor("").None?
  {
    assert SplitLines("") == [""];
    assert KeyCapture("").None?;
    assert CommitHashCapture("").None?;
    assert AuthorCapture("").None?;
  }

  // ----- reading the human-readable form back -----

  /**
   * The two verdict labels at the start of a header, as a reader of the report sees them:
   * whether it says `[SIGNED]` and whether it says `[VERIFIED]`.
   */
  function ReadVerdictLabels(header: string): Option<(bool, bool)> {
    if StartsWith(header, "[SIGNED] ") then ReadVerifiedLabel(true, header[9..])
    else if StartsWith(header, "[NOT SIGNED] ") then ReadVerifiedLabel(false, header[13..])
    else None
  }

  function ReadVerifiedLabel(signed: bool, rest: string): Option<(bool, bool)> {
    if StartsWith(rest, "[VERIFIED] ") then Some((signed, true))
    else if StartsWith(rest, "[NOT VERIFIED] ") then Some((signed, false))
    else None
  }

  /** A header is one line when the fields it shows are. */
  lemma HeaderOnOneLine(c: SignatureCheck)
    requires c.FieldsOnOneLine()
    ensures '\n' !in c.Header()
  {
    var commit := if Truthy(c.commitHash) then "Commit #" + c.commitHash.value else "";
    var tag := if Truthy(c.tagName) then "Tag " + c.tagName.value else "";
    var author := if Truthy(c.signatureAuthor) then "By \"" + c.signatureAuthor.value + "\"" else "";
    var key := if Truthy(c.signatureKey) then "(Key " + c.signatureKey.value + ")" else "";
    assert '\n' !in commit && '\n' !in tag && '\n' !in author && '\n' !in key;
    assert c.Details() == commit + " " + tag + " " + author + " " + key;
    assert '\n' !in c.SignedLabel() && '\n' !in c.VerifiedLabel();
  }

  /** Both labels are recovered from any text that starts with them. */
  lemma ReadLabels(signedLabel: string, verifiedLabel: string, tail: string)
    requires signedLabel == "[SIGNED]" || signedLabel == "[NOT SIGNED]"
    requires verifiedLabel == "[VERIFIED]" || verifiedLabel == "[NOT VERIFIED]"
    ensures ReadVerdictLabels(signedLabel + " " + verifiedLabel + " " + tail)
      == Some((signedLabel == "[SIGNED]", verifiedLabel == "[VERIFIED]"))
  {
    var h := signedLabel + " " + verifiedLabel + " " + tail;
    assert h[1] == signedLabel[1];
    assert h[..|signedLabel| + 1] == signedLabel + " ";
    var rest := h[|signedLabel| + 1..];
    assert rest == verifiedLabel + " " + tail;
    assert rest[1] == verifiedLabel[1];
    assert rest[..|verifiedLabel| + 1] == verifiedLabel + " ";
  }

  /** The header's two labels read back as "signed or has a key" and "verified". */
  lemma HeaderLabels(c: SignatureCheck)
    ensures ReadVerdictLabels(c.Header()) == Some((c.isSigned || Truthy(c.signatureKey), c.isVerified))
  {
    ReadLabels(c.SignedLabel(), c.VerifiedLabel(), c.Details());
  }

  /**
   * The report of a check opens with its header on a line of its own, and the header's
   * labels read back as "signed or has a key" and "verified".
   */
  lemma HumanReadableHeader(c: SignatureCheck)
    requires c.FieldsOnOneLine()
    ensures SplitLines(c.AsHumanReadableString())[0] == c.Header()
    ensures ReadVerdictLabels(SplitLines(c.AsHumanReadableString())[0]) == Some((c.isSigned || Truthy(c.signatureKey), c.isVerified))
  {
    var h := c.Header();
    var rest := ["Command: " + c.command, "Exit code: " + IntToString(c.exitCode), "Output: " + c.output];
    assert [h] + rest == [h, rest[0], rest[1], rest[2]];
    JoinCons("\n", h, rest);
    HeaderOnOneLine(c);
    FirstLineOf(h, Join("\n", rest));
    HeaderLabels(c);
  }

  /**
   * The report is four parts, one per line: the header, `Command: ` and the command,
   * `Exit code: ` and the exit code in decimal (which reads back), then `Output: ` and the
   * output, whose own lines follow.
   */
  lemma HumanReadableLines(c: SignatureCheck)
    requires c.FieldsOnOneLine() && '\n' !in c.command
    ensures SplitLines(c.AsHumanReadableString())
      == [c.Header(), "Command: " + c.command, "Exit code: " + IntToString(c.exitCode)] + SplitLines("Output: " + c.output)
    ensures ReadInt(SplitLines(c.AsHumanReadableString())[2][|"Exit code: "|..]) == Some(c.exitCode)
  {
    var h := c.Header();
    var exitCode := "Exit code: " + IntToString(c.exitCode);
    HeaderOnOneLine(c);
    IntToStringReadsBack(c.exitCode);
    assert '\n' !in "Command: " + c.command;
    assert '\n' !in exitCode;
    SplitFourLines(h, "Command: " + c.command, exitCode, "Output: " + c.output);
    assert exitCode[|"Exit code: "|..] == IntToString(c.exitCode);
  }
}
