# Version model of the lovely.io package host

A Dafny model of the `Version` record of the lovely.io package registry (`app/models/version.rb`):
the validations of a version before it is saved, the save with its two after-save callbacks, the
normalisation of dependency specifiers, and the dependency map a version is written and read through.

The relational datastore is abstracted into immutable rows (`Registry.Store`: a sequence of packages
with `id`, `name`, `updated_at`, and a sequence of version rows with `id`, `package_id`, `number`).
Each finder query the code issues (`find_by_name`, `find_by_id`, `find_by_package_id_and_number`, the
uniqueness query) is a first-match search over those rows. A version's dependency edges are the set
of ids of the versions it depends on.

Modules:

- `Wrappers`: `Option` (Ruby `nil`-or-value) and `Result`.
- `Text`: Ruby's `\d` and `\s`, ActiveSupport's `blank?`, line anchors, and the longest-run search `RunEnd`.
- `NumberFormat`: the version-number pattern as a whole-string recogniser, an independent grammar for
  it, and the line-anchored check as the code writes it.
- `Specifier`: `gsub(/^[^\d]+/, '')` with Ruby's multi-line semantics.
- `Registry`: the store, its finders, its integrity invariant, and the package timestamp update.
- `Versions`: validation, the asset written for a build, and `save`.
- `Dependencies`: `dependencies_hash=` and `dependencies_hash`, and the round trip between them.

Notes on the code's behaviour, which the model follows except where the format check is corrected (see "## Findings"):

- The format check is case-insensitive, so an upper-case pre-release tag (`1.0.0-RC1`) is accepted.
- `build` and `readme` are both required, and there are no documents, images or size limit in this code.
- The reader returns the dependencies in no particular order. The model enumerates them in store order.
- The writer replaces the edge set wholesale.

## Model

| member | source | states |
|---|---|---|
| `NumberFormat.VersionNumberGrammar` | app/models/version.rb:11 | A number passes the format check exactly when it is digits `.` digits `.` digits, optionally followed by `-` and one or more of `[a-zA-Z0-9.]`; every other string is rejected (both directions) |
| `NumberFormat.SingleLineAnchoring` | app/models/version.rb:11 | On a string without line breaks, the `^...$` check as written accepts exactly the strings the whole-string check accepts |
| `NumberFormat.MultiLineNumberAccepted` | app/models/version.rb:11 | The `^...$` check as written accepts `"x\n1.0.0"`, which is not a version number |
| `Specifier.Normalize` | app/models/version.rb:28 | The normalised specifier is empty or starts with a digit, and so does every line of it; a single-line specifier loses exactly its leading run of non-digits, so the result is a suffix of it; a single-line specifier that starts with a digit is unchanged |
| `Specifier.NormalizeIdempotent` | app/models/version.rb:28 | Normalising twice gives the same result as normalising once |
| `Specifier.NormalizeFixedPoints` | app/models/version.rb:28 | A specifier is left unchanged exactly when every one of its lines starts with a digit |
| `Specifier.NormalizeStripsOperator` | app/models/version.rb:28 | `">=1.2.0"` normalises to `"1.2.0"` |
| `Specifier.MultiLineNotSuffix` | app/models/version.rb:28 | Because `^` matches at every line, `"1\nx2"` normalises to `"1\n2"`, which is not a suffix of it |
| `Registry.FindPackageByName` | app/models/version.rb:27 | `Package.find_by_name` returns a package with that name, and returns nothing exactly when no package has it |
| `Registry.FindVersion` | app/models/version.rb:29 | `find_by_package_id_and_number` returns a row of that package with that number, and returns nothing exactly when there is none |
| `Registry.PackageOf` | app/models/version.rb:45 | Looking a package up by `package_id` returns a package with that id, and returns nothing for `nil` or for an id no package has |
| `Registry.TouchPackage` | app/models/version.rb:44-49 | The timestamp update sets only the found package's `updated_at` to the given time; ids, names, other packages and versions are unchanged; a missing package leaves the store as it was |
| `Versions.Conflict` | app/models/version.rb:12 | The uniqueness query finds another row of the same package (nil matching nil) with the same number, excluding the version's own row, and finds none exactly when no such row exists |
| `Versions.PresenceErrors` | app/models/version.rb:10 | A presence error is reported for exactly those of `number`, `build`, `readme` that are nil or whitespace-only, each at most once |
| `Versions.NumberErrors` | app/models/version.rb:11-12 | For a present number: a format error exactly when the whole number is outside the version-number grammar (the corrected check), which for a number without a line break is exactly when the line-anchored check as written rejects it; and a uniqueness error exactly when another row of the package has that number |
| `Versions.Validate` | app/models/version.rb:10-12 | All failures are reported without duplicates. A blank number gives a presence error and suppresses the format and uniqueness errors. A present number never gives a presence error. The format error fires exactly when the whole number is outside the version-number grammar (the corrected check); for a number without a line break, exactly when the line-anchored check as written rejects it. The uniqueness error fires exactly when another row of the same package has the same number |
| `Versions.BlankNumberOnlyMissing` | app/models/version.rb:10-12 | A blank number gives only a presence error for `number`; a present number never gives one |
| `Versions.OtherPackagesDoNotConflict` | app/models/version.rb:12 | A number used only by other packages never gives a uniqueness error |
| `Versions.AssetFor` | app/models/version.rb:36-42 | The build is written exactly when it is not blank, with the build as the content, to `{assets dir}/{package name}-{number}.js` |
| `Versions.AssetPathsDistinct` | app/models/version.rb:38 | Two different numbers of one package are written to different files |
| `Versions.Save` | app/models/version.rb:14-15 | A save with validation errors is refused with exactly those errors; otherwise it succeeds exactly when the package exists. A new version gets a fresh id and its row is appended. The build asset is emitted under the package's name. The package's `updated_at` becomes the given time |
| `Versions.SavePreservesWellFormed` | app/models/version.rb:12 | A successful save keeps ids, package names and `(package_id, number)` unique and every version attached to an existing package |
| `Versions.SecondSaveRejected` | app/models/version.rb:12 | After one new version is saved, a second new version of the same package with the same number fails validation as taken |
| `Dependencies.ResolveEntry` | app/models/version.rb:27-29 | An entry that resolves yields a version of a package with the entry's name whose number is the normalised specifier |
| `Dependencies.ResolveEntryComplete` | app/models/version.rb:27-29 | In a well-formed store an entry resolves to the version it denotes whenever that version exists |
| `Dependencies.Resolve` | app/models/version.rb:26-31 | Every resolved id is a version denoted by some entry (unknown packages and unmatched numbers contribute nothing), and a nil map resolves to no edges |
| `Dependencies.SetDependencies` | app/models/version.rb:25-32 | After the write, the edges are exactly the versions the entries denote. In a well-formed store every denoted version is included. Earlier edges survive only if re-resolved. A nil map leaves no edges. No other attribute changes |
| `Dependencies.SetDependenciesIdempotent` | app/models/version.rb:26 | Writing the same map twice equals writing it once, whatever edges the version had before |
| `Dependencies.ReadRowsSucceeds` | app/models/version.rb:19-20 | The reader fails exactly when a dependent version has no package |
| `Dependencies.ReadRowsKeys` | app/models/version.rb:18-22 | The reader's keys are exactly the package names of the dependent versions |
| `Dependencies.ReadRowsLastWins` | app/models/version.rb:19-21 | Each key holds the number of the last dependent version of a package with that name |
| `Dependencies.DependenciesHash` | app/models/version.rb:17-23 | The reader has one key per package name among the dependent versions, each mapped to the number of a dependent version of that package, and no other keys; it cannot fail in a well-formed store |
| `Dependencies.RoundTrip` | app/models/version.rb:17-32 | In a well-formed store, writing a map and reading it back gives exactly the resolvable entries, each mapped to its normalised specifier |
| `Dependencies.ExampleRoundTrip` | app/models/version.rb:25-31 | Writing `{"foo" => ">=1.2.0", "bar" => "1.0.0"}` against a store with `foo 1.2.0` and no `bar` reads back `{"foo" => "1.2.0"}` |

## Left out

- Datastore mechanics are not modelled: association SQL, `:dependent => :destroy` cascades, the `dependees` association and transactions. The store is a pair of row sequences. `Registry.WellFormed` states the integrity the schema keeps.
- Dependency edges are kept on the `Version` value. They are not Dependency join rows in the store, so "save, reload, read" is modelled as "write, read".
- The reader enumerates dependent versions in store order. The database gives no order. When two dependent versions share a package name, which one wins depends on that order.
- The race between the validation-time uniqueness query and the insert is not modelled. The model is sequential.
- Writing the asset file is represented by the `Asset` value the save returns. `ASSETS_DIR` and `Time.now` are parameters.
- A failed file write after the save is not modelled.
- `Versions.NumberErrors`: uses the corrected whole-string format check, so a multi-line number the code accepts (`"x\n1.0.0"`, `"1.0.0\n"`) gets a format error here; the contract agrees with the line-anchored check only for numbers without a line break.
- `Versions.Validate`: the same correction of the format check; a multi-line number the code accepts is reported as a format error.
- `Versions.Save`: an update of a persisted version whose row has vanished writes nothing; its contract does not describe the table after an update beyond the integrity lemma.
- Dependency map values must be strings (`map<string, string>`). A `nil` value, on which `gsub` raises, cannot be expressed.
- Case-insensitive matching is ASCII only. Unicode case folding of `[a-z]` under `/i` (for example the Kelvin sign) is not modelled.
- `Text.Blank` counts only tab, LF, VT, FF, CR and space as whitespace. Other Unicode spaces are not blank here.
- The uniqueness query compares numbers exactly. A case-insensitive database collation is not modelled.
- Documents, images and the "index" content check have no source in this file. The pages controller is web glue. Neither is modelled.

## Findings

| source | as written | input that shows it | evidently intended | confidence | as-written member | corrected member |
|---|---|---|---|---|---|---|
| app/models/version.rb:11 | the format pattern uses `^` and `$`, which in Ruby anchor at line boundaries, so a number passes when any one of its lines is a version number | `"x\n1.0.0"` (also `"1.0.0\n<anything>"`) passes the format check | the whole string must be a version number (`\A...\z`) | high; not executed | `NumberFormat.MultiLineNumberAccepted` | `NumberFormat.VersionNumberGrammar` |

The validation in `Versions.Validate` uses the corrected whole-string check, `NumberFormat.IsVersionNumber`. On single-line numbers the two checks agree, by `NumberFormat.SingleLineAnchoring`.
