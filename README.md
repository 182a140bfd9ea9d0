# MongoDB CI checker: version-freshness check, in Dafny

This project models `VersionCheck`, the core of the MongoDB CI checker. The checker reads a
CI workflow's test matrix, where each environment names a MongoDB version. It compares that
matrix with the catalogue of released MongoDB versions and fails the CI job in two cases:

- some environment uses an old patch of its minor line;
- a newer minor or major line is missing from the matrix.

The model covers four parts:

- **Options** (`VersionCheck.Construct`). The three required keys must be present. A missing
  `ignoreVersions` defaults to the empty list.
- **Newer patch** (`VersionCheck.NewerPatch`). This is `getNewerPatch`: the highest catalogue
  entry in the tilde range `~v`, kept only when it is above `v`.
- **Untested lines** (`VersionCheck.UntestedMinorsAndMajors`). This is the reduce in
  `getUntestedMinorsAndMajors`, a loop that grows its accumulator. It is proved equal to a
  declarative reference, `VersionCheck.Untested`: the first occurrences, in catalogue order,
  of the catalogue releases that pass four tests:
  - above the highest tested release;
  - highest on their caret line;
  - not ignored;
  - not a pre-release.
- **Pass/fail** (`VersionCheck.Check`). A loop over the environments with a `failed` flag,
  followed by the untested-line search.

Versions and their order follow node-semver, which the source calls:

- `SemVer` holds precedence, as in section 11 of Semantic Versioning 2.0.0, with pre-release
  identifiers as in section 9.
- `Ranges` holds parsed ranges, with node-semver's rule that a pre-release matches only a
  comparator set naming a pre-release of the same triple. It builds `*`, `~v` and `^v`, the
  `||`-join of the ignore list, and `maxSatisfying`.

`Scenarios` states what the check returns on small concrete catalogues.

The model follows the code. In four places the code does something other than what its own
names, comments and unit test suggest:

- **Untested lines are found per caret range, not per minor line.** The name
  `getUntestedMinorsAndMajors`, its doc comment (src/VersionCheck.js:78-82: all minor and
  major versions not used in the CI) and the "higher minor" comment on line 102 speak of minor
  lines. But `^M.m.p` spans the whole major when `M >= 1`, so at most one version per major is
  reported (`UntestedOnePerMajor`).
- **The default empty ignore list suppresses every untested line.** `[].join(' || ')` is the
  empty range, which matches every release. With default options the untested-line check
  never reports anything (`EmptyIgnoreListIgnoresAll`, `DefaultIgnoreListHidesUntestedLine`).
  The doc comment at lines 78-82 promises every untested minor and major version.
- **Undefined or `null` options throw a destructuring `TypeError`, not `invalidConfig`.**
  The unit test at spec/VersionCheck.spec.js:13-22 expects `invalidConfig` for both.
- **The duplicate test on line 99 is an equality test.** The comment there says "same or
  newer". `DuplicateCheckIsMembership` shows the two agree, because the test on line 103
  follows it.

Two more points about the untested-line search. It throws only when no tested version is a
release and the catalogue holds at least one release, so an empty tested set with no released
version is not an error. A tested set holding only pre-releases also throws.

## Model

| member | source | states |
|---|---|---|
| `SemVer.Compare` | src/VersionCheck.js:95 | `semver.compare` yields -1, 0 or 1, and 0 only for versions with the same major.minor.patch |
| `SemVer.CompareZero` | src/VersionCheck.js:99 | equal precedence holds exactly for equal versions, so the `==` of line 99 agrees with precedence |
| `SemVer.CompareFlip` | src/VersionCheck.js:127 | swapping the operands negates the comparison (`gt(a, b)` is `lt(b, a)`) |
| `SemVer.CompareTransitive` | src/VersionCheck.js:95 | precedence is transitive |
| `SemVer.CompareTotal` | src/VersionCheck.js:86 | any two versions are below, equal or above each other |
| `Ranges.MaxSatisfying` | src/VersionCheck.js:86 | `maxSatisfying` returns nothing exactly when no entry satisfies the range; otherwise it returns a satisfying entry of the list that no satisfying entry exceeds |
| `Ranges.MaxSatisfyingIs` | src/VersionCheck.js:103 | a satisfying entry that no satisfying entry exceeds is the one `maxSatisfying` returns |
| `Ranges.SatisfiesAny` | src/VersionCheck.js:86 | the range `*` matches exactly the releases |
| `Ranges.Tilde` | src/VersionCheck.js:126 | the range `~v` built for the search always contains v itself |
| `Ranges.Caret` | src/VersionCheck.js:99-103 | the range `^v` built on lines 99 and 103 always contains v itself |
| `Ranges.TildeMembers` | src/VersionCheck.js:126 | `~v` holds the versions of v's major.minor from v up; pre-releases only when v is a pre-release of the same triple |
| `Ranges.CaretMembers` | src/VersionCheck.js:99-105 | for a release v, `^v` holds the releases on v's caret line from v up; the line is the same major (M >= 1), else the same minor (m >= 1), else the same patch |
| `Ranges.JoinedSatisfies` | src/VersionCheck.js:107 | the `||`-joined ignore list matches a version iff one of its entries does; an empty list matches every release |
| `VersionCheck.Construct` | src/VersionCheck.js:20-38 | undefined options fail with a TypeError; missing `keyVersion`, `keyEnvironments` or `pathToYamlFile` fails with `invalidConfig`; otherwise the values are stored unchanged and `ignoreVersions` defaults to `[]` |
| `VersionCheck.NewerPatch` | src/VersionCheck.js:125-128 | a throw is the `null` error of `semver.gt`; a returned version is a catalogue entry strictly above v |
| `VersionCheck.NewerPatchMeaning` | src/VersionCheck.js:125-128 | throws exactly when no entry satisfies `~v`; otherwise a returned version has v's major.minor, is a pre-release only when v is a pre-release of its triple, and is highest in `~v`; nothing is returned exactly when no entry of `~v` is above v |
| `VersionCheck.NewerPatchOfRelease` | src/VersionCheck.js:125-128 | for a released v: a newer patch is reported iff the catalogue holds a release of the same major.minor with a higher patch; the search throws iff it holds no such release with a patch at or above v's |
| `VersionCheck.HighestTested` | src/VersionCheck.js:86 | the baseline is a tested release that no tested release exceeds, and is `null` exactly when every tested version is a pre-release |
| `VersionCheck.Untested` | src/VersionCheck.js:84-116 | the search throws exactly when no tested version is a release and the catalogue holds a release |
| `VersionCheck.GapsMembers` | src/VersionCheck.js:89-113 | a version is in the result iff it is a catalogue entry passing the pre-release, baseline, caret-maximum and ignore filters |
| `VersionCheck.GapsDistinct` | src/VersionCheck.js:98-101 | the accumulator never holds a version twice |
| `VersionCheck.GapsInOrder` | src/VersionCheck.js:89-113 | the accumulator is a subsequence of the catalogue |
| `VersionCheck.TopOfCaretLine` | src/VersionCheck.js:102-105 | `maxSatisfying(released, '^v') == v` iff no catalogue release on v's caret line is above v |
| `VersionCheck.DuplicateCheckIsMembership` | src/VersionCheck.js:98-101 | once v tops its caret line in the catalogue, `maxSatisfying(m, '^v') == v` iff v is already in m |
| `VersionCheck.UntestedMinorsAndMajors` | src/VersionCheck.js:84-116 | the reduce with its five filters and `push` returns what `Untested` specifies, including the throw on a `null` baseline |
| `VersionCheck.UntestedSound` | src/VersionCheck.js:91-109 | every reported version is a catalogue release strictly above every tested release, no catalogue entry of its caret range exceeds it, and no ignore entry matches it, so the ignore list is non-empty |
| `VersionCheck.UntestedComplete` | src/VersionCheck.js:89-113 | every catalogue release above all tested releases, highest on its caret line and not ignored is reported |
| `VersionCheck.UntestedInCatalogueOrder` | src/VersionCheck.js:89-113 | the result has no duplicates and is a subsequence of the catalogue |
| `VersionCheck.UntestedOnePerCaretLine` | src/VersionCheck.js:98-105 | no two reported versions share a caret line |
| `VersionCheck.UntestedOnePerMajor` | src/VersionCheck.js:102-105 | for major >= 1, no two reported versions share a major |
| `VersionCheck.EmptyIgnoreListIgnoresAll` | src/VersionCheck.js:106-109 | with an empty ignore list (the default of line 25), the search throws or returns nothing |
| `VersionCheck.StaleEntry` | src/VersionCheck.js:146-153 | one iteration of the loop: it throws iff the newer-patch search throws; it reports iff the search returns a version, and the report then names the environment, its version and exactly the version the search returned, a newer catalogue entry of the same major.minor |
| `VersionCheck.StalePatches` | src/VersionCheck.js:144-154 | the loop throws exactly when the newer-patch search throws for some environment |
| `VersionCheck.StalePatchesSound` | src/VersionCheck.js:145-150 | each stale report names a tested environment and its version, whose search returns a version, and that returned version as the newer patch |
| `VersionCheck.StalePatchesComplete` | src/VersionCheck.js:145-150 | every environment whose search returns a newer patch is reported with that patch |
| `VersionCheck.StalePatchesEmpty` | src/VersionCheck.js:144-154 | nothing is reported stale exactly when no environment has a newer patch |
| `VersionCheck.TestedVersions` | src/VersionCheck.js:157 | the tested versions are the environments' versions, one per environment |
| `VersionCheck.Check` | src/VersionCheck.js:142-173 | the check throws iff either search throws; otherwise it reports both lists and fails the run iff some environment has a newer patch or the untested list is non-empty |
| `Scenarios.OldPatchReported` | src/VersionCheck.js:125-128 | with 4.2.0, 4.2.1 and 4.4.0 released, the tested 4.2.0 gets 4.2.1 as its newer patch |
| `Scenarios.UntestedLineReported` | src/VersionCheck.js:84-116 | with 4.2.0 tested and `7.x` ignored, 4.4.0 is the one untested line |
| `Scenarios.DefaultIgnoreListHidesUntestedLine` | src/VersionCheck.js:106-109 | with the default empty ignore list, the same catalogue reports no untested line |
| `Scenarios.PrereleaseNotANewerPatch` | src/VersionCheck.js:125-128 | the pre-release 5.1.0-rc0 is not a newer patch of the tested 5.0.1 |
| `Scenarios.PrereleaseNotAnUntestedLine` | src/VersionCheck.js:91-93 | 5.1.0-rc0 is not reported as an untested line |
| `Scenarios.IgnoredMajorNotReported` | src/VersionCheck.js:106-109 | with `7.x` ignored, 7.0.0 is not reported |
| `Scenarios.NoTestedReleaseThrows` | src/VersionCheck.js:95 | with no tested release and a released version, the search throws |

## Left out

- `getReleasedVersions` (src/VersionCheck.js:45-54) fetches the catalogue over the network through a foreign callback. The catalogue is an input sequence instead.
- `getTests` (src/VersionCheck.js:60-76) reads and parses the YAML file and walks the dotted key path. The tested environments are input `(name, version)` pairs instead, so an entry without a version never appears, as after the filter on line 70.
- Console output, the message texts passed to `core.setFailed`, the async control flow and the error-string wrapping of `check` are left out. `Report.failed` records whether `check` calls `core.setFailed` for out-of-date versions. A thrown error is a `Failure` result; the source reports that through `core.setFailed` as well.
- `static start` and the exports (src/VersionCheck.js:181-196) read environment variables and are left out.
- src/Errors.js is a constant error object. `invalidConfig` is the `InvalidConfig` constructor of `VersionCheck.Error`.
- Version and range strings are not parsed. Versions are values: major, minor, patch and pre-release identifiers. Build metadata, loose parsing and invalid strings are not modelled. Line 99 compares version strings with `==`; the model compares values, which is the same for the canonical strings of the catalogue.
- Ignore entries are given as parsed ranges. The range grammar (`7.x`, `<5`, hyphen ranges) is not modelled. An unparsable entry is not modelled either: after the join on line 107 it makes node-semver fail to build the whole range, and `satisfies` then returns false, so one bad entry switches off the entire ignore list.
- Numeric pre-release identifiers are unbounded. node-semver keeps identifiers above `Number.MAX_SAFE_INTEGER` as strings; the model does not.
- `VersionCheck.Construct`: option values are typed as strings and lists. A key explicitly set to `null` passes the `undefined` test on line 29 and is stored. The model has no `null` value, so it cannot express that case.
