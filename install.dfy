/** `install_spacy_model` and `uninstall_spacy_model`: guarded early returns
    producing the status `0` or `-1`.

    What the package system, the downloader and `pip` do is an input: the
    installed version before the call, whether the download ran without
    `SystemExit`, the version found when the installation is confirmed
    (`None` when that lookup raised), and version equality after
    `packaging.version.parse`, left uninterpreted. */
module SpacyInstall {
  import opened Options

  /** Python truthiness of an optional string: `None` and `""` are false. */
  predicate Given(s: Option<string>) {
    s.Some? && s.value != ""
  }

  /** A call `spacy.cli.download(target, direct, False, "--quiet")`. */
  datatype Download = Download(target: string, direct: bool)

  datatype Environment = Environment(
    installedBefore: Option<string>,
    downloadSucceeds: bool,
    installedAfter: Option<string>,
    sameVersion: (string, string) -> bool)

  /** The download the function asked for, if it got that far, and its status. */
  datatype InstallRun = InstallRun(download: Option<Download>, status: int)

  /** The pip command line that was run, and the status. */
  datatype UninstallRun = UninstallRun(command: seq<string>, status: int)

  function InstallSpacyModel(model: string, version: Option<string>, upgrade: bool, env: Environment): (r: InstallRun)
    ensures r.status == 0 || r.status == -1
    // the early return: nothing is downloaded exactly when no version is
    // asked for, this is not an upgrade and some version is already installed
    ensures r.download.None? <==> !Given(version) && !upgrade && Given(env.installedBefore)
    ensures r.download.None? ==> r.status == 0
    // a pinned version is fetched directly as `<model>-<version>`, otherwise
    // the bare name goes through spaCy's compatibility table
    ensures r.download.Some? ==>
      r.download.value.direct == Given(version) &&
      r.download.value.target == model + (if Given(version) then "-" + version.value else "")
    // after a download, -1 is the download failing, the confirmation failing,
    // or the confirmed version differing from the pinned one
    ensures r.download.Some? ==>
      (r.status == -1 <==>
        || !env.downloadSucceeds
        || env.installedAfter.None?
        || (Given(version) && !env.sameVersion(version.value, env.installedAfter.value)))
  {
    if !Given(version) && !upgrade && Given(env.installedBefore) then
      InstallRun(None, 0)
    else
      var request :=
        if Given(version) then Download(model + "-" + version.value, true) else Download(model, false);
      if !env.downloadSucceeds then InstallRun(Some(request), -1)
      else if env.installedAfter.None? then InstallRun(Some(request), -1)
      else if Given(version) && !env.sameVersion(version.value, env.installedAfter.value) then
        InstallRun(Some(request), -1)
      else InstallRun(Some(request), 0)
  }

  function UninstallSpacyModel(model: string, python: string, pipSucceeds: bool): (r: UninstallRun)
    ensures r.command == [python, "-m", "pip", "uninstall", "--yes", model]
    ensures r.status == -1 <==> !pipSucceeds
    ensures r.status == 0 <==> pipSucceeds
  {
    UninstallRun([python, "-m", "pip", "uninstall", "--yes", model], if pipSucceeds then 0 else -1)
  }

  /** Success means the model is there: either it already was and nothing
      was asked of the downloader, or the download ran without `SystemExit`,
      the installation was confirmed, and the confirmed version is the pinned
      one when a version was pinned. An upgrade always takes the second way. */
  lemma InstallSuccessMeansInstalled(model: string, version: Option<string>, upgrade: bool, env: Environment)
    requires InstallSpacyModel(model, version, upgrade, env).status == 0
    ensures InstallSpacyModel(model, version, upgrade, env).download.None? ==> Given(env.installedBefore)
    ensures InstallSpacyModel(model, version, upgrade, env).download.Some? ==>
      env.downloadSucceeds && env.installedAfter.Some?
    ensures upgrade ==> env.downloadSucceeds && env.installedAfter.Some?
    ensures Given(version) ==>
      env.downloadSucceeds && env.installedAfter.Some? &&
      env.sameVersion(version.value, env.installedAfter.value)
  {
  }

  /** An upgrade never stops at "already installed": it always asks for the
      bare model name through the compatibility table. */
  lemma UpgradeAlwaysDownloads(model: string, env: Environment)
    ensures InstallSpacyModel(model, None, true, env).download == Some(Download(model, false))
  {
  }

  /** The status depends on the environment only through what the code looks
      at: with no version and no upgrade, an installed model short-circuits
      whatever the downloader would have done. */
  lemma AlreadyInstalledIgnoresDownloader(model: string, env1: Environment, env2: Environment)
    requires env1.installedBefore == env2.installedBefore && Given(env1.installedBefore)
    ensures InstallSpacyModel(model, None, false, env1) == InstallSpacyModel(model, None, false, env2)
    ensures InstallSpacyModel(model, None, false, env1) == InstallRun(None, 0)
  {
  }
}
