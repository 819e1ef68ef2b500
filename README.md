# spacy-model-manager, modelled in Dafny

This project models the `spacy_model_manager` command-line tool that ships in the
chatbot repository's environment: how it folds the GitHub release tags of the
spaCy models into a release index, how it lists that index, how it decides
whether to download, install or uninstall a model and which status it returns,
and how its `--model-version` check and its four commands (`list`, `install`,
`upgrade`, `remove`) map onto the library.

Modules (one file each):

- `Options`, `Text` (`text.dfy`): Python's `Optional`; ASCII digits; Python's
  code-point ordering of `str` with its order laws; `str.join`.
- `SpacyReleases` (`releases.dfy`): `SPACY_MODEL_NAMES` and `get_spacy_models`.
  The HTTP side is an input. `pages` holds the tag names of every page fetched
  successfully, in order. `httpError` says whether the request after the last
  of them raised `HTTPError`. The method walks the pages and tags in loops and
  updates the map in place. It is proved equal to `SpacyModels`, a fold over
  all tags. That fold is checked against `VersionsOf`, an independent
  per-name reference.
- `SpacyListing` (`listing.dfy`): `list_spacy_models`. The model names are
  taken from the release map into an array, which is sorted in place by
  insertion. Then one row per name is appended after the header. `IsListing`
  states what the table must be, and `ListingUnique` proves only one table meets it.
- `SpacyInstall` (`install.dfy`): `install_spacy_model` and
  `uninstall_spacy_model` as decision functions over an `Environment` of
  oracle answers. These are the installed version before the call, whether
  the download ran without `SystemExit`, the version found when the
  installation is confirmed (`None` when that lookup raised), and
  `packaging.version.parse` equality, left uninterpreted.
- `SpacyCli` (`cli.dfy`): `validate_version_string` and the commands.

Python's truthiness is kept. A version of `""` counts as "no version", and an
installed version of `""` counts as "not installed" (`Given`). The validator
refuses `""` anyway. The library functions do not.

## Model

| member | source | states |
|---|---|---|
| `SpacyReleases.HyphenIndex` | env/Lib/site-packages/spacy_model_manager/lib.py:135 | the position found is a `-` with no `-` before it; `None` exactly when the tag has no `-` |
| `SpacyReleases.SplitTagIff` | env/Lib/site-packages/spacy_model_manager/lib.py:135 | a tag splits into `(name, version)` iff it is `name + "-" + version` with no hyphen in `name`; the version keeps any later hyphens |
| `SpacyReleases.SplitTagNone` | env/Lib/site-packages/spacy_model_manager/lib.py:135 | the two-way unpacking fails exactly for a tag without a hyphen |
| `SpacyReleases.GetSpacyModels` | env/Lib/site-packages/spacy_model_manager/lib.py:117-153 | the page loop and the tag loop, with their in-place map update, compute `SpacyModels(pages, httpError)` |
| `SpacyReleases.CollectSucceedsIff` | env/Lib/site-packages/spacy_model_manager/lib.py:134-135 | the tag fold ends without the uncaught `ValueError` iff every tag has a hyphen |
| `SpacyReleases.CollectFirstMalformed` | env/Lib/site-packages/spacy_model_manager/lib.py:134-135 | the error escapes at the first tag without a hyphen, and that is the tag reported |
| `SpacyReleases.CollectIsVersionsOf` | env/Lib/site-packages/spacy_model_manager/lib.py:127-148 | when every tag splits, each key's list is exactly the reference list of its accepted versions in order; a name is a key iff it has at least one accepted version |
| `SpacyReleases.VersionsOfAppend` | env/Lib/site-packages/spacy_model_manager/lib.py:127-146 | the versions from later pages are appended after those of earlier pages, with duplicates kept |
| `SpacyReleases.VersionsOfMember` | env/Lib/site-packages/spacy_model_manager/lib.py:135-142 | a version is listed for a name iff some tag reads `name-version`, the name has no hyphen and the version contains neither `a` nor `b` |
| `SpacyReleases.SpacyModelsVersions` | env/Lib/site-packages/spacy_model_manager/lib.py:127-148 | without an HTTP error, the result maps each name to its stable versions in fetch order, and has no other keys |
| `SpacyReleases.SpacyModelsNoPreRelease` | env/Lib/site-packages/spacy_model_manager/lib.py:137-142 | no version with `a` or `b` and no name containing `-` reaches the result; every listed pair came from a tag |
| `SpacyReleases.SpacyModelsHttpError` | env/Lib/site-packages/spacy_model_manager/lib.py:150-151 | after an HTTP error, partial results are discarded: the keys are exactly `SPACY_MODEL_NAMES`, each mapped to `[]` |
| `SpacyReleases.SpacyModelsTagError` | env/Lib/site-packages/spacy_model_manager/lib.py:134-135 | a tag without a hyphen escapes as an error whatever the HTTP outcome |
| `Text.StrLtIrreflexive` | env/Lib/site-packages/spacy_model_manager/lib.py:168 | the `str` ordering used as the sort key is irreflexive |
| `Text.StrLtTransitive` | env/Lib/site-packages/spacy_model_manager/lib.py:168 | the `str` ordering is transitive |
| `Text.StrLtTotal` | env/Lib/site-packages/spacy_model_manager/lib.py:168 | any two different strings are ordered one way or the other |
| `SpacyListing.KeysOf` | env/Lib/site-packages/spacy_model_manager/lib.py:167 | the items list holds every key of the release map exactly once |
| `SpacyListing.SortByName` | env/Lib/site-packages/spacy_model_manager/lib.py:168 | the in-place sort leaves the names ascending and a permutation of what they were |
| `SpacyListing.SinkInto` | env/Lib/site-packages/spacy_model_manager/lib.py:168 | one insertion pass extends the sorted prefix by one, permutes the array and leaves the part after it untouched |
| `SpacyListing.Tabulate` | env/Lib/site-packages/spacy_model_manager/lib.py:167-173 | the header row first, then one row per key in strictly ascending name order, each with the installed version and the versions joined by `", "` |
| `SpacyListing.ListSpacyModels` | env/Lib/site-packages/spacy_model_manager/lib.py:156-177 | returns 0 with exactly that table, or lets the release fetch's error escape |
| `SpacyListing.DistinctSortedIsStrict` | env/Lib/site-packages/spacy_model_manager/lib.py:167-168 | names taken from map keys and sorted are strictly ascending |
| `SpacyListing.StrictlySortedUnique` | env/Lib/site-packages/spacy_model_manager/lib.py:168 | two strictly ascending sequences of the same names are equal |
| `SpacyListing.ListingUnique` | env/Lib/site-packages/spacy_model_manager/lib.py:166-175 | the table does not depend on the order the map yielded its items in |
| `SpacyListing.ListingCoversKeys` | env/Lib/site-packages/spacy_model_manager/lib.py:172-173 | the table has one row per release key plus the header, and every key has a row |
| `SpacyInstall.InstallSpacyModel` | env/Lib/site-packages/spacy_model_manager/lib.py:180-254 | status is 0 or -1. No download happens iff no version, no upgrade and an installed version; that path returns 0. The download target is `model-version` (direct) or the bare name (not direct). After a download, -1 iff the download fails, confirmation fails, or the pinned version differs |
| `SpacyInstall.UninstallSpacyModel` | env/Lib/site-packages/spacy_model_manager/lib.py:257-271 | runs `python -m pip uninstall --yes <model>`; -1 exactly when pip fails, 0 otherwise |
| `SpacyInstall.InstallSuccessMeansInstalled` | env/Lib/site-packages/spacy_model_manager/lib.py:189-254 | status 0 without a download means a version was already installed; status 0 after a download (always the case for an upgrade) means the download ran without `SystemExit` and the confirmation found a version, equal to the pinned one when one was given |
| `SpacyInstall.UpgradeAlwaysDownloads` | env/Lib/site-packages/spacy_model_manager/lib.py:191-216 | an upgrade never takes the "already installed" return and downloads the bare name, not direct |
| `SpacyInstall.AlreadyInstalledIgnoresDownloader` | env/Lib/site-packages/spacy_model_manager/lib.py:189-204 | with no version and no upgrade, an installed model returns 0 whatever the downloader would do |
| `SpacyCli.ValidateVersionString` | env/Lib/site-packages/spacy_model_manager/cli.py:24-37 | `None` passes through. A string is accepted, unchanged, iff some prefix of it is `digits ("." digits)+`. Otherwise a bad-parameter error carries the string |
| `SpacyCli.VersionMatchSound` | env/Lib/site-packages/spacy_model_manager/cli.py:32-34 | a match covers a prefix of the form `digits ("." digits)+` |
| `SpacyCli.VersionMatchComplete` | env/Lib/site-packages/spacy_model_manager/cli.py:32-34 | any prefix of that form makes the pattern match |
| `SpacyCli.VersionMatchIff` | env/Lib/site-packages/spacy_model_manager/cli.py:32-34 | the pattern matches at the start iff some prefix has the form `digits ("." digits)+` |
| `SpacyCli.ValidateExamples` | env/Lib/site-packages/spacy_model_manager/cli.py:32-37 | `"1"`, `"v1.2"` and `"1."` are refused; `"1.2"` and `"1.2rc"` are accepted unchanged |
| `SpacyCli.Install` | env/Lib/site-packages/spacy_model_manager/cli.py:58-73 | exits iff the model is a known name and the version passes the check, with the status of an install with `upgrade=False` |
| `SpacyCli.Upgrade` | env/Lib/site-packages/spacy_model_manager/cli.py:76-84 | exits iff the model is a known name, with the status of an install with no version and `upgrade=True` |
| `SpacyCli.Remove` | env/Lib/site-packages/spacy_model_manager/cli.py:87-95 | exits iff the model is a known name, with the status of the uninstall |
| `SpacyCli.List` | env/Lib/site-packages/spacy_model_manager/cli.py:48-55 | prints the listing and exits 0, or ends with the release fetch's uncaught error |
| `SpacyCli.ExitStatuses` | env/Lib/site-packages/spacy_model_manager/cli.py:67-95 | every command that passes its argument checks exits with 0 or -1 |
| `SpacyCli.InstallVersusUpgrade` | env/Lib/site-packages/spacy_model_manager/cli.py:72-83 | on an installed model, `install` without a version exits 0 without downloading, while `upgrade` downloads the bare name |
| `SpacyCli.PinnedInstallSucceeds` | env/Lib/site-packages/spacy_model_manager/cli.py:58-73 | a pinned `install` that exits 0 had a well-formed version prefix, downloaded, and confirmed a version equal to the pinned one |

## Left out

- HTTP and JSON (`requests.get`, `json.loads`, `response.links`): pages are an input. Exceptions other than `HTTPError` are not modelled: a connection error, a missing `tag_name` key or malformed JSON would escape. An endless chain of "next" links is not modelled either, because the pages are a finite sequence.
- Dictionary insertion order: the release index is a Dafny `map`. The listing is proved independent of the order its items come in (`ListingUnique`), so nothing observable is lost.
- `SpacyListing.SortByName`: Python sorts with Timsort on `(name, versions)` pairs. The model sorts the names by insertion and looks up each name's versions. The keys are distinct, so every correct sort gives the same table.
- Presentation: the `rich` spinners, `click.echo`/`click.style` messages, `spacy_msg.no_print` and the `tabulate` text layout. The table is kept as rows, and a missing installed version is `None`.
- `pkg_resources.get_distribution`, `reload`, `spacy.cli.download` and `run_command` are foreign calls. Their answers are inputs: `Environment` for install, an `installed` map for the listing, and a success flag plus the interpreter path for pip.
- `SpacyInstall.InstallSpacyModel`: only `SystemExit` is caught around `spacy.cli.download`. Any other exception, such as a connection error while the download resolves the model name, escapes `install_spacy_model` with no status. `downloadSucceeds` only tells a finished download from one ended by `SystemExit`, so "the status is 0 or -1" holds for those two outcomes only.
- `SpacyInstall.UninstallSpacyModel`: only `SystemExit` is caught around `run_command`. Any other exception escapes `uninstall_spacy_model` with no status. `pipSucceeds` only tells a finished pip run from one ended by `SystemExit`, so "-1 exactly when pip fails, 0 otherwise" holds for those two outcomes only.
- `SpacyCli.ExitStatuses`: "exits with 0 or -1" holds only when the download and pip calls finish or raise `SystemExit`. Any other exception from them ends the command uncaught, which `Exit` does not represent.
- `SpacyInstall.InstallSpacyModel`: `packaging.version.parse` (PEP 440) is the uninterpreted `sameVersion`. Its `InvalidVersion` exception on an unparsable version is not modelled.
- `SpacyCli.ValidateVersionString`: Python's `\d` also matches non-ASCII decimal digits. The model accepts ASCII `0`-`9` only.
- Process exit: `sys.exit(-1)` becomes exit code 255 on POSIX. The model keeps the status passed to `sys.exit`. Click's own usage-error exit code and messages are reduced to `UsageError`. The `-h`/`--help` and `--version` options, which print the help or the version and exit 0, are not modelled.
- `SPACY_MODELS` (the namedtuple built from the names) is used by nothing in the core.
- `chatbot/app_chatbot/views.py`: three Django handlers with no logic to verify. `getResponse` echoes the `userMessage` query parameter. The ChatterBot imports are unused, so no reply comes from a conversational engine.
