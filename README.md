# requestmigrations in Dafny

A model of the core of `requestmigrations`, a Go library for API versioning in
the style of Stripe. A server registers, for each API version, the list of
migrations that turn a payload of the previous version into one of that version.
For a client pinned to an older version, the library does two things:

- it runs the request forward through the migrations of every later version;
- it runs the response backward through the same versions, newest first.

The model covers these parts of the library:

- **Versions** (`versions.dfy`). A version is a string plus the registry's format: a calendar date, a semantic version, or any other format name.
  - `IsValid`, `Equal` and the two sorters' "less" are modelled. For dates this includes Go's `time.Parse` with the `DateOnly` layout (digit layout, month range, days per month, leap years). For semantic versions it includes SemVer 2.0.0 precedence (section 11).
  - It is proved that parse and format are inverses, that `Equal` is an equivalence on valid date and semver versions, and that each sorter's "less" is a strict order (total on valid versions).
  - Go's `sort.Slice` is modelled as the insertion sort it runs on short lists: left to right, swapping only while the sorter's "less" holds, so equal versions keep their order. Its output is proved to be a permutation of its input, and ascending when every version parses. An unparsable version is never "less" in either direction, so it blocks the swaps across it, and the result can then be out of order (`UnparsableDateBlocksSorting`).
  - `Version.String()` is the `value` field itself.
- **Registry** (`request_migrations.dfy`). This is the `RequestMigration` class:
  - its constructor and `NewRequestMigration`, including the initial version ("0001-01-01", "v0" or "");
  - `RegisterMigrations`, with its loop over the batch in map-iteration order and the sort that follows;
  - `getUserVersion` (header, then callback, then the initial version) and `getCurrentVersion`;
  - `GenerateChangelog`, which sorts a copy of the versions, so the registry is not modified.
  - The class invariant says that every version string is a key of the migration map and every key is a version string.
- **Migrator and the two passes** (`migrations.dfy`):
  - `NewMigrator` keeps the suffix of the registered versions that starts at the caller's version. The suffix is not cut at the current version.
  - `applyRequestMigrations` walks the versions in ascending order and returns errors unchanged. A request body is modelled as the bytes its reader still holds, so once the pass has read the body, a failed pass leaves it empty.
  - `applyResponseMigrations` walks the versions in descending order and turns every failure into `ErrServerError`.
  - Both passes skip the caller's own version. Each migration runs only when its `ShouldMigrateConstraint` holds on the current body.
  - Each pass is proved equal to a recursive specification. Lemmas relate the passes to each other and to the test scenarios.
- **Changelog** (`changelog.dfy`). A changelog has one entry per version that has at least one described migration, in ascending version order when every version parses.
- **Type-shape helpers** (`type_shapes.dfy`):
  - `dereferenceToLastPtr`;
  - `typeHasInterfaceFields` and its recursive worker, with its shared `visited` set, over a finite graph of type descriptors;
  - `isStringEmpty` with Go's `strings.TrimSpace` (`strings.dfy`).
- **Example migrations** (`json.dfy`, `basic_example.dfy`, `advanced_example.dfy`). These are the migrations of the basic and advanced examples, over a JSON tree:
  - full name ↔ first/last name, and profile uid ↔ profile object;
  - email ↔ username, and project list ↔ project map keyed by id.
  - Each is proved against a reference function.
  - Round trips: the profile, email/username and project migrations are proved in both directions. The full-name migration is proved only backward then forward. Forward then backward does not give the input back, because `first_name` and `last_name` stay in the map beside the restored `full_name`.
  - Go's map iteration order is unspecified. The model lets it be any enumeration of the keys. The property proved for the project list ↔ map round trip is "the same projects, possibly reordered".

The repository also describes a newer engine based on type graphs (`Register`, `WithUserVersion`, `Marshal`). The files modelled here implement the byte-and-header engine above, and the model follows this code.

`InitialVersion(DateFormat)` is "0001-01-01", the zero `time.Time`. Go's parser also accepts year 0000, so a registered date can sort before the initial version (`YearZeroPrecedesInitialDate`).

## Model

| member | source | states |
|---|---|---|
| Strings.TrimSpace | examples/basic/requestmigrations.go:40 | neither end of the result is white space; the result is empty exactly when the input is all white space |
| Strings.TrimSpaceStripsEnds | examples/basic/requestmigrations.go:40 | the result is the input with a white-space prefix and a white-space suffix cut off |
| Strings.TrimSpaceKeepsTrimmed | examples/basic/requestmigrations.go:40 | a string whose two ends are not white space is left unchanged |
| Strings.IsStringEmpty | common.go:9 | true exactly when every character is white space (so in particular for "") |
| Strings.Split | examples/basic/requestmigrations.go:18 | there is always at least one piece; no piece contains the separator; joining the pieces with the separator gives the input back |
| Strings.SplitJoin | examples/basic/requestmigrations.go:18 | splitting a join of separator-free pieces gives exactly those pieces |
| Versions.ParseDate | version.go:22-26 | a successful parse is a valid calendar date, and formatting it gives back exactly the parsed string (the layout has one spelling per date) |
| Versions.DaysIn | version.go:22-26 | every month has 28 to 31 days, and 29 exactly for February of a leap year |
| Versions.DateSpelling | version.go:22-26 | a string parses as a date exactly when it is the `DateOnly` spelling of some date with a four-digit year |
| Versions.IsValid | version.go:14-30 | a date version is valid exactly when its string spells a valid date; a version of any other format name is always valid |
| Versions.Equal | version.go:32-61 | equal versions are both valid under the receiver's format; a receiver of any other format name is never equal |
| Versions.Less | version.go:67-97 | a version that does not parse is never less nor greater than another; there is no "less" for any other format name |
| Versions.FormatThenParse | requestmigrations.go:76-77 | every four-digit-year date formats to a string that parses back to it |
| Versions.PrecedesStrictTotal | version.go:95 | semantic-version precedence is irreflexive, transitive and total |
| Versions.EqualReflexive | version.go:32-61 | a valid date or semver version equals itself |
| Versions.EqualSymmetricTransitive | version.go:32-61 | among versions of one format, `Equal` is symmetric and transitive |
| Versions.DateEqualIsSameString | version.go:47-58 | two date versions are equal exactly when the first is valid and the strings are identical |
| Versions.LessStrictOrder | version.go:67-97 | each sorter's "less" is irreflexive and transitive for every format and every string, including unparsable ones |
| Versions.LessTotal | version.go:67-97 | two valid versions of a known format are equal or ordered one way round, and equal ones are not ordered |
| Versions.SortVersions | requestmigrations.go:107-111 | the sorted list is a permutation of the input |
| Versions.SortSorted | requestmigrations.go:107-111 | when every version parses, the sorted list is ascending under the format's sorter |
| Versions.SwapsLast | requestmigrations.go:107-111 | a last element less than the middle one but not the first moves back exactly one place |
| Versions.NotLessTransitive | version.go:67-97 | on versions that parse, "not less" is transitive, so each sorter's "less" is a strict weak order there |
| Versions.KeepsEqualPair | requestmigrations.go:107-111 | two versions neither of which is less than the other keep their order |
| Versions.UnparsableBlocksSorting | requestmigrations.go:107-111 | an unparsable version between two versions in the wrong order leaves all three unmoved, so the result is not ascending |
| Versions.UnparsableDateBlocksSorting | requestmigrations.go:107-111 | the dates 2023-02-01, "bad", 2023-01-01 come out of the sort in that order, which is not ascending |
| Migrations.FirstEqual | requestmigrations.go:220-226 | none exactly when no registered version equals `from`; otherwise the first index whose version equals `from` |
| Migrations.NewMigrator | requestmigrations.go:215-234 | fails with `ErrInvalidVersion` exactly when `from` or `to` is invalid; otherwise the migrator keeps the suffix from the first version equal to `from`, or no versions |
| Migrations.SuffixReachesNewest | requestmigrations.go:220-226 | a non-empty suffix starts at a version equal to `from` and ends at the newest registered version, not at `to` |
| Migrations.SuffixStartsAtFrom | requestmigrations.go:220-226 | with one format throughout, the first version walked is one the passes skip as the caller's own |
| Migrations.Chain | requestmigrations.go:259-268 | a chain in which no constraint holds on the body returns the payload unchanged |
| Migrations.RequestStep | requestmigrations.go:249-268 | success means the version has a migration list; failure is `ErrInvalidVersion` or an error returned by one of that version's migrations |
| Migrations.RequestRun | requestmigrations.go:248-269 | success means every version walked has a migration list |
| Migrations.ResponseStep | requestmigrations.go:292-312 | success means the version has a migration list; every failure is `ErrServerError` |
| Migrations.ResponseRun | requestmigrations.go:291-313 | success means every version walked has a migration list |
| Migrations.HttpRequest.constructor | requestmigrations.go:236-277 | the request holds the given URL, method, header and body |
| Migrations.ChainAppend | requestmigrations.go:259-268 | a chain over `a + b` is the chain over `a`, then the chain over `b` on its result, stopping at the first error |
| Migrations.ApplyRequestMigrations | requestmigrations.go:236-277 | the request gets the body and header of the ascending pass on success; on failure the error is returned unchanged, the header is untouched and the body is not replaced, so it stays drained (no bytes left); without versions nothing is read |
| Migrations.ApplyResponseMigrations | requestmigrations.go:279-322 | the result is the descending pass over the recorded body and header |
| Migrations.RequestRunAppend | requestmigrations.go:248-269 | the request pass over `vs1 + vs2` is the pass over `vs1` followed by the pass over `vs2`, stopping at the first error |
| Migrations.ResponseRunAppend | requestmigrations.go:291-313 | the response pass over `vs1 + vs2` walks all of `vs2` newest first, then `vs1` |
| Migrations.ResponseErrorIsServerError | requestmigrations.go:294-311 | any failure of the response pass is `ErrServerError` |
| Migrations.ChainErrorComesFromMigration | requestmigrations.go:259-268 | a version's chain fails only with an error that one of its migrations can return |
| Migrations.RequestErrorIsPropagated | requestmigrations.go:248-268 | a request-pass error is `ErrInvalidVersion` or an error returned by a migration of a version walked |
| Migrations.SkipsCallerVersion | requestmigrations.go:254-301 | the caller's own version, at the head of the list, changes nothing in either pass |
| Migrations.NewestCallerPassesThrough | requestmigrations_test.go:43-61 | a caller at the newest version gets its payload back unchanged from both passes |
| Migrations.OlderCallerIsMigrated | requestmigrations.go:291-311 | with the caller's date and one later date, each pass is exactly that later version's migrations; a response failure becomes `ErrServerError` |
| Migrations.InfallibleChainSucceeds | requestmigrations.go:259-268 | a chain of migrations that never fail succeeds |
| Migrations.InfalliblePassesSucceed | requestmigrations.go:248-313 | if every version walked has a list and no migration fails, both passes succeed |
| Changelog.Descriptions | changelog.go:46-51 | the descriptions are exactly those of the migrations that carry one, at most one per migration |
| Changelog.DescriptionsInOrder | changelog.go:46-51 | the descriptions are one per migration that has one, in registration order |
| Changelog.Entries | changelog.go:39-60 | at most one entry per version |
| Changelog.EntriesContents | changelog.go:40-59 | every entry belongs to a listed version with a migration list and holds exactly that list's descriptions, at least one; every listed version with a description gets its entry |
| Changelog.EntriesAscending | changelog.go:25-40 | entries built from an ascending version list are ascending |
| Changelog.ChangelogOfTwoDescribedVersions | changelog_test.go:39-81 | for the test's registry, exactly two entries, "2023-03-01" then "2023-04-01", with one change each |
| RequestMigrations.InitialVersion | requestmigrations.go:75-80 | the date initial version parses as 0001-01-01; the semver initial version is "v0"; only an unknown format gets the empty string |
| RequestMigrations.InitialDateIsEarliest | requestmigrations.go:76-77 | no valid date from year 1 onwards sorts before the initial date version |
| RequestMigrations.YearZeroPrecedesInitialDate | requestmigrations.go:76-77 | "0000-01-01" parses and sorts before the initial date version |
| RequestMigrations.HeaderGet | requestmigrations.go:179 | a non-empty result is the first value under the key; the first value is always returned when there is one |
| RequestMigrations.RequestMigration.constructor | requestmigrations.go:82-95 | the registry holds only the initial version, with an empty list, and is valid |
| RequestMigrations.NewRequestMigration | requestmigrations.go:65-96 | nil options fail; otherwise a fresh valid registry holding only the initial version |
| RequestMigrations.RequestMigration.RegisterMigrations | requestmigrations.go:98-117 | the registry stays valid; every batch key replaces its list; the versions are the old ones plus the batch keys in some enumeration order, sorted unless the format is unknown, and ascending when every version parses; `ErrInvalidVersionFormat` exactly for an unknown format, after the change |
| RequestMigrations.RequestMigration.AddAll | requestmigrations.go:102-105 | each batch key is visited once; the migration map becomes the old one overridden by the batch; one version is appended per key, in visiting order |
| RequestMigrations.RegisteredValues | requestmigrations.go:102-105 | after the loop the version strings are still exactly the keys of the migration map |
| RequestMigrations.RequestMigration.GetUserVersion | requestmigrations.go:177-199 | a non-blank header wins; otherwise, with a callback, its error is returned unchanged or its answer is the version, the initial version when the answer is blank; without a callback the initial version; the format is always the configured one |
| RequestMigrations.HeaderlessCallerGetsInitialVersion | requestmigrations.go:191-193 | without the header and without a callback, the caller is at the initial version |
| RequestMigrations.RequestMigration.CurrentVersion | requestmigrations.go:201-206 | the configured current version in the configured format |
| RequestMigrations.RequestMigration.GenerateChangelog | changelog.go:21-63 | `ErrInvalidVersionFormat` exactly for an unknown format; otherwise the entries of the sorted versions, ascending when every version parses, each with the descriptions of its version (at least one); the registry is not modified |
| RequestMigrations.CollectEntries | changelog.go:39-60 | the loop builds exactly the entries of the given version order |
| RequestMigrations.DescribedChanges | changelog.go:46-51 | the loop collects exactly the descriptions of the list |
| RequestMigrations.TestCurrentVersionIsLater | requestmigrations_test.go:106-111 | the test's current version "2023-03-01" sorts after the initial date version |
| RequestMigrations.EarlierThenLater | requestmigrations.go:104-111 | appending a later date to an earlier one and sorting keeps the two in that order |
| RequestMigrations.TwoLaterDatesOrder | requestmigrations.go:102-111 | two later dates registered in one batch, in either enumeration order, are sorted after the earlier date in date order |
| RequestMigrations.RegisteredChangelog | changelog_test.go:39-81 | registering the test's two versions on a new date registry, in either enumeration order, gives the changelog "2023-03-01" then "2023-04-01", one change each |
| RequestMigrations.InitialThenLaterOrder | requestmigrations_test.go:121-132 | registering one later date on a new date registry gives the versions [initial, later] |
| RequestMigrations.VersionApiScenarios | requestmigrations_test.go:34-104 | in the VersionAPI test's registry, a header-less caller gets the later version's response migrations, and a caller at the current version gets its payload back from both passes |
| TypeShapes.DereferenceToLastPtr | common.go:13-18 | the result is never a pointer to a pointer and has the same base type; `T` and `*T` are unchanged; `**..*T` ends at a pointer to a non-pointer |
| TypeShapes.DereferenceIdempotent | util.go:13-18 | dereferencing twice is dereferencing once |
| TypeShapes.StripPointers | common.go:28-30 | the loop ends at the base type, which is not a pointer |
| TypeShapes.HasInterfaceFieldsRec | common.go:26-55 | `visited` only grows, and the base type is marked; true means an interface is reachable; false means every newly marked type is interface-free with all its components marked |
| TypeShapes.TypeHasInterfaceFields | common.go:22-24 | true exactly when an interface type is reachable through pointers, fields, elements, keys and values |
| TypeShapes.PointerToInterface | common.go:28-40 | any number of pointers to an interface counts as an interface |
| TypeShapes.BasicHasNoInterface | common.go:38-54 | a basic kind behind any number of pointers has no interface |
| Json.StringOr | examples/basic/requestmigrations.go:38-39 | the string stored under the key, or "" when it is missing or not a string |
| BasicExample.UserForward | examples/basic/requestmigrations.go:10-29 | a non-map, or a map without a string `full_name`, is unchanged; otherwise `full_name` is removed, `first_name` is its first piece, `last_name` its second if there is one, and every other key is kept |
| BasicExample.UserMigrateForward | examples/basic/requestmigrations.go:10-29 | the in-place update succeeds with the reference result |
| BasicExample.FullName | examples/basic/requestmigrations.go:37-40 | two blank names give the empty full name |
| BasicExample.UserBackward | examples/basic/requestmigrations.go:31-43 | a non-map is unchanged; otherwise `full_name` is set from the trimmed join and every other key is kept |
| BasicExample.UserMigrateBackward | examples/basic/requestmigrations.go:31-43 | the in-place update succeeds with the reference result |
| BasicExample.PlainNamesJoin | examples/basic/requestmigrations.go:18-40 | two space-free names joined by a space survive the trim and split back into the two names |
| BasicExample.UserBackwardThenForward | examples/basic/requestmigrations.go:17-40 | a new-shape user with plain names and no `full_name` survives backward then forward exactly |
| BasicExample.ProfileForward | examples/basic/requestmigrations.go:48-57 | a string becomes the object holding it as `uid`; anything else is unchanged |
| BasicExample.ProfileMigrateForward | examples/basic/requestmigrations.go:48-57 | succeeds with the reference result |
| BasicExample.ProfileBackward | examples/basic/requestmigrations.go:59-66 | a map becomes its `uid` value, or null without one; anything else is unchanged |
| BasicExample.ProfileMigrateBackward | examples/basic/requestmigrations.go:59-66 | succeeds with the reference result |
| BasicExample.ProfileForwardThenBackward | examples/basic/requestmigrations.go:48-66 | an old uid string survives forward then backward |
| BasicExample.ProfileBackwardThenForward | examples/basic/requestmigrations.go:48-66 | a profile holding only its uid string survives backward then forward |
| AdvancedExample.MoveString | examples/advanced/main.go:38-54 | a string under one key moves to the other key and the first key disappears, other keys kept; without a string there the map is unchanged |
| AdvancedExample.UserForward | examples/advanced/main.go:38-45 | a string `email` moves to `username` and `email` disappears, other keys are kept; without a string `email` the map is unchanged |
| AdvancedExample.UserBackward | examples/advanced/main.go:47-54 | the mirror image: a string `username` moves to `email` |
| AdvancedExample.UserMigrateForward | examples/advanced/main.go:38-45 | on a map, the in-place update succeeds with the reference result |
| AdvancedExample.UserMigrateBackward | examples/advanced/main.go:47-54 | on a map, the in-place update succeeds with the reference result |
| AdvancedExample.UserForwardThenBackward | examples/advanced/main.go:38-54 | a user without `username` survives forward then backward |
| AdvancedExample.UserBackwardThenForward | examples/advanced/main.go:38-54 | a user without `email` survives backward then forward |
| AdvancedExample.ProjectsById | examples/advanced/main.go:62-68 | every entry is filed under its own string id |
| AdvancedExample.ProjectsByIdHasId | examples/advanced/main.go:65-66 | every project with a string id has an entry under that id |
| AdvancedExample.ProjectsByIdFrom | examples/advanced/main.go:63-67 | every entry is one of the listed projects |
| AdvancedExample.ProjectsByIdLast | examples/advanced/main.go:63-67 | of several projects with one id, the last one is kept |
| AdvancedExample.ProjectsByIdEntries | examples/advanced/main.go:61-68 | the keys are exactly the string ids in the list (projects without one are dropped), and the last project with each id is its entry |
| AdvancedExample.WorkspaceForward | examples/advanced/main.go:59-72 | a `projects` list becomes the map of its projects by id; every other key is kept; without a list the map is unchanged |
| AdvancedExample.WorkspaceMigrateForward | examples/advanced/main.go:59-72 | when every project is a map, the loop succeeds with the reference result |
| AdvancedExample.WorkspaceBackward | examples/advanced/main.go:74-84 | the keys stay the same and every key other than `projects` keeps its value; a `projects` map becomes a list |
| AdvancedExample.WorkspaceMigrateBackward | examples/advanced/main.go:74-84 | a `projects` map becomes the list of its values in some enumeration of its keys, with one item per key of the map; anything else is unchanged; never an error |
| AdvancedExample.ProjectsPermutation | examples/advanced/main.go:61-81 | with unique ids, listing the project map in any key order gives a permutation of the original list |
| AdvancedExample.ProjectsRestored | examples/advanced/main.go:61-81 | a map filing each project under its own id is rebuilt exactly from its values, in any order |
| AdvancedExample.WorkspaceForwardThenBackward | examples/advanced/main.go:59-84 | a workspace whose projects have unique ids comes back with the same projects, possibly reordered, and other keys unchanged |
| AdvancedExample.WorkspaceBackwardThenForward | examples/advanced/main.go:59-84 | a workspace whose project map files each project under its own id comes back unchanged, whatever the listing order |

## Left out

- The HTTP middleware `VersionAPI`, the Prometheus latency metric and the `from.Equal(to)` short cut are plumbing around the two passes and are not modelled. So are `finalResponder`, which copies headers and writes the body, and `response.go`.
- `sync.Mutex` locking in `RegisterMigrations` and `GenerateChangelog` is not modelled. The model is sequential.
- Reading a request or response body (`io.ReadAll`) is assumed to succeed. A read error would be returned as is.
- Migrations.ApplyResponseMigrations: a write error from `finalResponder` (mapped to `ErrServerError` in the source) is not represented.
- `semver.NewVersion` belongs to an external library, so it is a parameter of the model. Parsed versions carry no build metadata, since it plays no part in precedence.
- Header names are looked up as given. Go's canonicalisation of header keys is not modelled.
- Versions.SortVersions: models only the insertion sort that Go's `sort.Slice` runs on lists of at most 12 elements. Longer lists go through pattern-defeating quicksort, which is not stable. Equal versions may then come out in another order, and with unparsable versions present the result may differ. Sortedness is promised only when every version parses, as in Go.
- Strings are sequences of Unicode code points, not UTF-8 bytes. JSON numbers are integers, and floating point is left out.
- Type assertions that panic (`data.(map[string]any)` in the advanced example) are preconditions.
- The example migrations update the decoded map in place and return it. The model returns the updated value, so aliasing between the caller's map and the result is not captured.
- Go reflection is modelled as a finite graph of type descriptors. The graph must have no cyclic pointer chains such as `type P *P`, on which the source would loop forever.
- RequestMigrations.RequestMigration.RegisterMigrations: requires the registry invariant `Valid()`, which every registry built by `NewRequestMigration` has.
- The type-graph engine (`Register`, `WithUserVersion`, `Marshal`), the servers, stores and example `main` programs are not part of this model.
- `changelog_test.go` registers a `MigrationStore` type that does not exist, and its migrations lack `ShouldMigrateConstraint`. Its scenario is modelled on the registry's own types (`ChangelogOfTwoDescribedVersions`).
