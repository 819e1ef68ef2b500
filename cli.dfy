/** The `spacy-model` command line: the `--model-version` check and the four
    commands, each of which exits with the status of the library call it
    makes. A model argument outside the known names, or a version the check
    refuses, is a usage error raised before any library call. */
module SpacyCli {
  import opened Options
  import opened Text
  import opened SpacyReleases
  import opened SpacyListing
  import opened SpacyInstall

  // ---------------------------------------------------------------------
  // validate_version_string

  /** A whole string of the form `digits ("." digits)+`, described by its
      characters: digits and dots only, a digit at both ends, a digit after
      every dot, and at least one dot. */
  predicate VersionShape(t: string) {
    && |t| > 0
    && IsDigit(t[0])
    && IsDigit(t[|t| - 1])
    && '.' in t
    && (forall k :: 0 <= k < |t| ==> IsDigit(t[k]) || t[k] == '.')
    && (forall k :: 0 <= k < |t| - 1 && t[k] == '.' ==> IsDigit(t[k + 1]))
  }

  /** End of the run of digits starting at `i` (greedy `\d*`). */
  function DigitRunEnd(s: string, i: nat): (j: nat)
    requires i <= |s|
    ensures i <= j <= |s|
    ensures forall k :: i <= k < j ==> IsDigit(s[k])
    ensures j == |s| || !IsDigit(s[j])
    decreases |s| - i
  {
    if i < |s| && IsDigit(s[i]) then DigitRunEnd(s, i + 1) else i
  }

  /** End of the groups `(?:\.\d+)*` matched greedily from `i`. */
  function GroupsEnd(s: string, i: nat): (j: nat)
    requires i <= |s|
    ensures i <= j <= |s|
    decreases |s| - i
  {
    if i + 1 < |s| && s[i] == '.' && IsDigit(s[i + 1]) then GroupsEnd(s, DigitRunEnd(s, i + 1))
    else i
  }

  /** `re.compile(r"\d+(?:\.\d+)+").match(s)`: where the match ends, if the
      pattern matches at the start of `s`. Backtracking cannot help once the
      greedy attempt fails: a shorter first run of digits is followed by a
      digit, never by a dot. */
  function VersionMatch(s: string): Option<nat> {
    var d := DigitRunEnd(s, 0);
    if d == 0 then None
    else
      var g := GroupsEnd(s, d);
      if g == d then None else Some(g)
  }

  datatype Validated = Accepted(version: Option<string>) | BadParameter(offending: string)

  function ValidateVersionString(value: Option<string>): (r: Validated)
    ensures value.None? ==> r == Accepted(None)
    ensures value.Some? ==>
      (r.Accepted? <==> exists k :: 0 <= k <= |value.value| && VersionShape(value.value[..k]))
    ensures r.Accepted? ==> r.version == value
    ensures r.BadParameter? ==> value == Some(r.offending)
  {
    match value
    case None => Accepted(None)
    case Some(s) =>
      VersionMatchIff(s);
      if VersionMatch(s).None? then BadParameter(s) else Accepted(value)
  }

  /** The digits-and-dots prefix `s[..j]` built so far has the version shape
      except perhaps for the "at least one dot". */
  predicate ShapedUpTo(s: string, j: nat) {
    && 0 < j <= |s|
    && IsDigit(s[0])
    && IsDigit(s[j - 1])
    && (forall k :: 0 <= k < j ==> IsDigit(s[k]) || s[k] == '.')
    && (forall k :: 0 <= k < j - 1 && s[k] == '.' ==> IsDigit(s[k + 1]))
  }

  lemma {:induction false} GroupsEndShaped(s: string, i: nat)
    requires ShapedUpTo(s, i)
    ensures ShapedUpTo(s, GroupsEnd(s, i))
    ensures GroupsEnd(s, i) > i ==> s[i] == '.'
    decreases |s| - i
  {
    if i + 1 < |s| && s[i] == '.' && IsDigit(s[i + 1]) {
      var d := DigitRunEnd(s, i + 1);
      assert ShapedUpTo(s, d);
      GroupsEndShaped(s, d);
    }
  }

  /** The match, when there is one, covers a prefix of the version shape. */
  lemma VersionMatchSound(s: string)
    requires VersionMatch(s).Some?
    ensures VersionMatch(s).value <= |s| && VersionShape(s[..VersionMatch(s).value])
  {
    var d := DigitRunEnd(s, 0);
    assert ShapedUpTo(s, d);
    GroupsEndShaped(s, d);
    var g := GroupsEnd(s, d);
    assert s[..g][d] == '.';
  }

  /** Any prefix of the version shape makes the pattern match. */
  lemma VersionMatchComplete(s: string, k: nat)
    requires k <= |s| && VersionShape(s[..k])
    ensures VersionMatch(s).Some?
  {
    var t := s[..k];
    var d := DigitRunEnd(s, 0);
    assert t[0] == s[0];
    var p :| 0 <= p < k && t[p] == '.';
    assert d <= p by {
      assert !IsDigit(s[p]);
    }
    assert t[d] == s[d];
    assert s[d] == '.';
    assert t[d + 1] == s[d + 1];
  }

  lemma VersionMatchIff(s: string)
    ensures VersionMatch(s).Some? <==> exists k :: 0 <= k <= |s| && VersionShape(s[..k])
  {
    if VersionMatch(s).Some? {
      VersionMatchSound(s);
    }
    if exists k :: 0 <= k <= |s| && VersionShape(s[..k]) {
      var k :| 0 <= k <= |s| && VersionShape(s[..k]);
      VersionMatchComplete(s, k);
    }
  }

  /** How the version validator treats typical inputs: a lone number is
      refused, and the match is anchored only at the start, so a suffix after
      the digits is let through. */
  lemma ValidateExamples()
    ensures ValidateVersionString(Some("1")) == BadParameter("1")
    ensures ValidateVersionString(Some("1.2")) == Accepted(Some("1.2"))
    ensures ValidateVersionString(Some("1.2rc")) == Accepted(Some("1.2rc"))
    ensures ValidateVersionString(Some("v1.2")) == BadParameter("v1.2")
    ensures ValidateVersionString(Some("1.")) == BadParameter("1.")
  {
  }

  // ---------------------------------------------------------------------
  // The commands

  /** How a command ends: `sys.exit(status)`, a usage error from the argument
      checks, or the uncaught `ValueError` of a tag without a hyphen. */
  datatype Exit = Exited(status: int) | UsageError | Uncaught(tag: string)

  /** `spacy-model install <model> [--model-version <version>]` */
  function Install(model: string, modelVersion: Option<string>, env: Environment): (r: Exit)
    ensures r.Exited? <==> model in SpacyModelNames && ValidateVersionString(modelVersion).Accepted?
    ensures r.Exited? ==> r.status == InstallSpacyModel(model, modelVersion, false, env).status
  {
    if model !in SpacyModelNames then UsageError
    else match ValidateVersionString(modelVersion)
      case BadParameter(_) => UsageError
      case Accepted(version) => Exited(InstallSpacyModel(model, version, false, env).status)
  }

  /** `spacy-model upgrade <model>` */
  function Upgrade(model: string, env: Environment): (r: Exit)
    ensures r.Exited? <==> model in SpacyModelNames
    ensures r.Exited? ==> r.status == InstallSpacyModel(model, None, true, env).status
  {
    if model !in SpacyModelNames then UsageError
    else Exited(InstallSpacyModel(model, None, true, env).status)
  }

  /** `spacy-model remove <model>` */
  function Remove(model: string, python: string, pipSucceeds: bool): (r: Exit)
    ensures r.Exited? <==> model in SpacyModelNames
    ensures r.Exited? ==> r.status == UninstallSpacyModel(model, python, pipSucceeds).status
  {
    if model !in SpacyModelNames then UsageError
    else Exited(UninstallSpacyModel(model, python, pipSucceeds).status)
  }

  /** `spacy-model list`: the printed table and how the command ends. */
  method List(pages: seq<seq<string>>, httpError: bool, installed: map<string, string>)
    returns (printed: seq<Row>, r: Exit)
    ensures SpacyModels(pages, httpError).TagError? ==>
      printed == [] && r == Uncaught(SpacyModels(pages, httpError).tag)
    ensures SpacyModels(pages, httpError).Releases? ==>
      r == Exited(0) && IsListing(printed, SpacyModels(pages, httpError).releases, installed)
  {
    var listing := ListSpacyModels(pages, httpError, installed);
    match listing
    case ListFailed(tag) =>
      printed, r := [], Uncaught(tag);
    case Listed(table, status) =>
      printed, r := table, Exited(status);
  }

  // ---------------------------------------------------------------------
  // What the commands promise together

  /** Every command that gets past its argument checks exits 0 or -1. */
  lemma ExitStatuses(model: string, modelVersion: Option<string>, env: Environment, python: string, pipSucceeds: bool)
    ensures Install(model, modelVersion, env).Exited? ==> Install(model, modelVersion, env).status in {0, -1}
    ensures Upgrade(model, env).Exited? ==> Upgrade(model, env).status in {0, -1}
    ensures Remove(model, python, pipSucceeds).Exited? ==> Remove(model, python, pipSucceeds).status in {0, -1}
  {
  }

  /** `install` without `--model-version` on a model that is already there
      exits 0 without downloading; `upgrade` on the same model downloads. */
  lemma InstallVersusUpgrade(model: string, env: Environment)
    requires model in SpacyModelNames && Given(env.installedBefore)
    ensures Install(model, None, env) == Exited(0)
    ensures InstallSpacyModel(model, None, false, env).download.None?
    ensures Upgrade(model, env) == Exited(InstallSpacyModel(model, None, true, env).status)
    ensures InstallSpacyModel(model, None, true, env).download == Some(Download(model, false))
  {
  }

  /** A pinned install that exits 0 left the pinned version in place (as far
      as version parsing can tell). */
  lemma PinnedInstallSucceeds(model: string, version: string, env: Environment)
    requires Install(model, Some(version), env) == Exited(0)
    ensures exists k :: 0 <= k <= |version| && VersionShape(version[..k])
    ensures env.downloadSucceeds && env.installedAfter.Some?
    ensures env.sameVersion(version, env.installedAfter.value)
  {
    assert ValidateVersionString(Some(version)).Accepted?;
    assert version != "";
    InstallSuccessMeansInstalled(model, Some(version), false, env);
  }
}
