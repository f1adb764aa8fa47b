# Download-requirements manifest filter

A Dafny model of the manifest-driven part of the `download-requirements`
configuration step (`ansible/playbooks/roles/repository/files/download-requirements/src/config/config.py`). The step receives the full requirements catalog
(a dict with the keys `files`, `grafana-dashboards` and `images`) and,
when a manifest is given and parses, cuts it down in place to what the
requested features need:

- **dashboard gate**: without the feature `grafana`, `grafana-dashboards` becomes `[]`;
- **file filter**: an entry whose `deps` are `'default'` is always kept; any
  other entry is kept only if one of its deps is requested. The excluded keys
  are collected first (`files_to_exclude`) and the dict is rebuilt without them;
- **image filter**: a fresh dict gets one empty dict per original group; each
  requested group is then walked in order and keeps an image only if its id
  was not kept by an earlier group (`selected_images`).

It also models the resolution of the OS type given on the command line
(`__get_matching_os_type`) and the control flow of `read_manifest`.

Layout:

- `errors.dfy` (`Errors`): the raised errors and the `Result`/`Outcome`/`Option` wrappers.
- `filter.dfy` (`Filter`): the catalog as values (ordered dicts are sequences
  of key/value pairs with distinct keys) and each rule as a specification function.
- `filter_properties.dfy` (`FilterProperties`): what each rule keeps, order and
  key preservation, cross-group de-duplication, only-removes, idempotence.
- `config.dfy` (`Config`): the imperative layer. `Requirements` is the dict that
  is mutated in place; `Config` holds the manifest path and the filter methods.
  The loops of `__filter_files` and `__filter_images` are the methods
  `FilesToExclude`, `ImagesToDownload` and `SelectGroupImages`, each proved
  equal to its specification function.
- `os_matching.dfy` (`OsMatching`): first-match search over supported distributions.
- `scenarios.dfy` (`Scenarios`): concrete catalogs run through the filter.

The image filter keeps the key of every group, mapping an unrequested group to
an empty dict (lines 290-291 create all of them before any is filled).
Unrequested groups are not removed from the result.

## Model

| member | source | states |
|---|---|---|
| FilterProperties.DashboardGate | ansible/playbooks/roles/repository/files/download-requirements/src/config/config.py:311-312 | without 'grafana' the dashboards list is empty whatever it held; with 'grafana' it is unchanged |
| FilterProperties.FilterFilesMember | ansible/playbooks/roles/repository/files/download-requirements/src/config/config.py:274-280 | an entry (key and data) is kept iff it was in the files and its deps are 'default' or contain a requested feature; nothing is added |
| FilterProperties.DefaultFileKept | ansible/playbooks/roles/repository/files/download-requirements/src/config/config.py:276 | a 'default' entry is kept for every feature set, the empty set included |
| FilterProperties.EmptyDepsFileDropped | ansible/playbooks/roles/repository/files/download-requirements/src/config/config.py:276 | an entry with an empty deps list is always excluded |
| FilterProperties.FilterFilesOrder | ansible/playbooks/roles/repository/files/download-requirements/src/config/config.py:280 | the kept entries are a subsequence of the original entries: original order, unchanged data |
| FilterProperties.FilterFilesDistinct | ansible/playbooks/roles/repository/files/download-requirements/src/config/config.py:280 | the rebuilt files mapping is still a dict (distinct keys) |
| FilterProperties.FilterFilesIdempotent | ansible/playbooks/roles/repository/files/download-requirements/src/config/config.py:267-280 | filtering the files twice equals filtering them once |
| FilterProperties.ExcludedKeysExact | ansible/playbooks/roles/repository/files/download-requirements/src/config/config.py:273-277 | in a dict, an entry's key is in files_to_exclude iff the entry's deps are not 'default' and contain no requested feature |
| FilterProperties.RetainNotInAgrees | ansible/playbooks/roles/repository/files/download-requirements/src/config/config.py:280 | rebuilding by key against any list that marks exactly the failing entries yields the filtered files |
| FilterProperties.ExcludeThenRetain | ansible/playbooks/roles/repository/files/download-requirements/src/config/config.py:273-280 | collecting files_to_exclude and then rebuilding without those keys equals keeping exactly the passing entries |
| FilterProperties.NothingExcluded | ansible/playbooks/roles/repository/files/download-requirements/src/config/config.py:279-280 | when files_to_exclude is empty the untouched files are already the filtered files |
| Config.FilesToExclude | ansible/playbooks/roles/repository/files/download-requirements/src/config/config.py:272-277 | the loop returns the excluded keys in iteration order; for a dict, a key is returned iff its entry fails the filter |
| FilterProperties.PickKeys | ansible/playbooks/roles/repository/files/download-requirements/src/config/config.py:295-298 | the ids a requested group keeps are its ids not already selected |
| FilterProperties.PickDistinct | ansible/playbooks/roles/repository/files/download-requirements/src/config/config.py:296-298 | a group never keeps the same id twice |
| FilterProperties.PickMember | ansible/playbooks/roles/repository/files/download-requirements/src/config/config.py:295-298 | for a dict group, (id, data) is kept iff it is in the group and id was not selected before |
| FilterProperties.PickSubsequence | ansible/playbooks/roles/repository/files/download-requirements/src/config/config.py:295-297 | the kept images are a subsequence of the group's images |
| FilterProperties.PickUnchanged | ansible/playbooks/roles/repository/files/download-requirements/src/config/config.py:295-298 | a group with distinct ids, none selected before, is kept whole |
| Config.SelectGroupImages | ansible/playbooks/roles/repository/files/download-requirements/src/config/config.py:295-298 | the inner loop keeps what the specification keeps and returns selected_images grown by exactly the kept ids |
| FilterProperties.FilterGroupsKeys | ansible/playbooks/roles/repository/files/download-requirements/src/config/config.py:290-294 | the group keys are the original keys in the original order and every unrequested group maps to an empty dict |
| FilterProperties.FilterGroupsSubsequence | ansible/playbooks/roles/repository/files/download-requirements/src/config/config.py:293-298 | every group's kept images are a subsequence of its original images |
| FilterProperties.FilterGroupsAvoid | ansible/playbooks/roles/repository/files/download-requirements/src/config/config.py:289-298 | no kept id was in selected_images when the walk started, and no group repeats an id |
| FilterProperties.FilterGroupsDisjoint | ansible/playbooks/roles/repository/files/download-requirements/src/config/config.py:293-298 | two different groups never keep the same id |
| FilterProperties.FilterImagesUnique | ansible/playbooks/roles/repository/files/download-requirements/src/config/config.py:282-298 | each image id appears at most once in the whole filtered images dict |
| FilterProperties.FilterGroupsMember | ansible/playbooks/roles/repository/files/download-requirements/src/config/config.py:293-298 | for dict groups, an image is kept in group j iff group j is requested, holds it, its id was not selected before and no earlier requested group holds the id |
| FilterProperties.FilterImagesMember | ansible/playbooks/roles/repository/files/download-requirements/src/config/config.py:287-298 | an image sits exactly in the first requested group, in catalog order, that holds its id, with its original data |
| FilterProperties.FilterGroupsSettled | ansible/playbooks/roles/repository/files/download-requirements/src/config/config.py:289-298 | the image filter's output has empty unrequested groups, dict groups and no id repeated or previously selected |
| FilterProperties.SettledFixed | ansible/playbooks/roles/repository/files/download-requirements/src/config/config.py:289-298 | an images dict in that settled shape is left unchanged by the image filter |
| FilterProperties.FilterImagesIdempotent | ansible/playbooks/roles/repository/files/download-requirements/src/config/config.py:282-301 | filtering the images twice equals filtering them once |
| Config.ImagesToDownload | ansible/playbooks/roles/repository/files/download-requirements/src/config/config.py:286-298 | the two loops build exactly the filtered images dict, with the original group keys in order |
| FilterProperties.FilterManifestIdempotent | ansible/playbooks/roles/repository/files/download-requirements/src/config/config.py:303-315 | applying the whole filter twice with the same features equals applying it once |
| FilterProperties.FilterManifestOnlyRemoves | ansible/playbooks/roles/repository/files/download-requirements/src/config/config.py:303-315 | files and dashboards only lose elements (order kept), image group keys are unchanged, and each group only loses images |
| FilterProperties.FilterImagesValid | ansible/playbooks/roles/repository/files/download-requirements/src/config/config.py:288-301 | the filtered images dict has distinct group keys and every group is a dict |
| FilterProperties.FilterManifestValid | ansible/playbooks/roles/repository/files/download-requirements/src/config/config.py:303-315 | a catalog whose dicts have distinct keys is filtered into one |
| Config.Config.FilterFiles | ansible/playbooks/roles/repository/files/download-requirements/src/config/config.py:267-280 | the files field becomes the filtered files; dashboards and images are untouched; every dict keeps distinct keys |
| Config.Config.FilterImages | ansible/playbooks/roles/repository/files/download-requirements/src/config/config.py:282-301 | the images field becomes the filtered images (also when there are no groups); files and dashboards are untouched; every dict keeps distinct keys |
| Config.Config.FilterManifest | ansible/playbooks/roles/repository/files/download-requirements/src/config/config.py:303-315 | the whole dict becomes the filtered catalog; without 'grafana' the dashboards are empty; every dict keeps distinct keys |
| Config.Config.ReadManifest | ansible/playbooks/roles/repository/files/download-requirements/src/config/config.py:317-342 | no manifest path: requirements unchanged; OldManifestVersion: unchanged and no error; another reader exception: unchanged and raised; a parse: the dict is filtered by the requested features; every dict keeps distinct keys |
| OsMatching.GetMatchingOsType | ansible/playbooks/roles/repository/files/download-requirements/src/config/config.py:120-134 | returns the first entry in list order whose upper-cased name contains the upper-cased input or one of whose upper-cased aliases equals it; CriticalError exactly when no entry matches |
| OsMatching.MatchingIgnoresCase | ansible/playbooks/roles/repository/files/download-requirements/src/config/config.py:129-130 | inputs that upper-case alike resolve to the same result |
| OsMatching.EmptyInputMatchesFirst | ansible/playbooks/roles/repository/files/download-requirements/src/config/config.py:129 | an empty input is contained in every name, so it resolves to the first entry |
| Scenarios.RepositoryOnlyScenario | tests/unit/data/schema/ManifestReader_data.py:68-72 | with the repository-only feature set, a kafka-only file is dropped, the 'default' file is kept, dashboards are cleared and the kafka image group keeps its key with no images |
| Scenarios.SharedImageScenario | ansible/playbooks/roles/repository/files/download-requirements/src/config/config.py:293-298 | an id in two requested groups is kept only under the first group, with that group's data |

## Left out

- Argument parsing, path construction and the `Config` constructor's wiring (`__create_parser`, `__add_args`): command-line glue. The manifest path is a constructor parameter.
- Logger setup and every logging call, including the verbose summaries (`__log_info_summary`, `__get_parsed_manifest_data_output`, `__get_requirements_output`): output formatting only.
- `__detect_os_type`: it reads `/etc/os-release`, which is file I/O.
- The manifest reader (`src/config/manifest_reader.py`, YAML parsing, version check, computing the requested components and features) is not part of this model; its outcome is the `reading` parameter of `ReadManifest` (a parsed summary, `OldManifestVersion`, or any other exception).
- The document updater and its `_merge` marker are not part of this model (their source is not among the modelled files).
- `src/config/os_type.py` is not part of this model: `GetMatchingOsType` takes the list `SUPPORTED_OS_TYPES[arch]` as its parameter, and the architecture lookup is left out.
- OsMatching.Upper: upper-cases ASCII letters only; Python's `str.upper` also folds non-ASCII letters.
- Filter.Deps: a `deps` value that is a string other than `'default'` (whose characters Python would iterate) is not representable; a `deps` key missing from an entry (a `KeyError` in Python) is not modelled either.
- Aliasing of the Python dicts: the model's dicts are values, so the local `files` and `images` names sharing the caller's dict objects are not captured.
