# Dependency version reconciliation (`index.js`), modelled in Dafny

`index.js` is a command-line script run in a package directory. It reads
`package.json` and keeps only the caret-ranged (`^x.y.z`) packages of the
four declaration groups (`shrink`). It then asks `yarn add` to reinstall each
group's packages with the group's flag, and reports OK, SKIP or FAIL per
group. Finally it reads the manifest again and, for every package declared
in several groups, copies the larger of each two specifiers over the smaller
(`syncDependencies`), as the comparator `isLargerVersion` ranks them. When
the specifiers are canonical with one common component count, this leaves
one specifier everywhere (`Sync.SyncReachesMaximum`). Otherwise ties between
different strings, such as `1` against `1.0`, and empty specifiers can leave
groups disagreeing.

The model has these modules:

- `Versions` (versions.dfy): the comparator, built from JavaScript's
  `replace('^', '')`, `split('.')` and unary `+` as the code uses them. A
  component is `Option<nat>`, and `None` stands for `NaN` or a missing
  component.
- `VersionOrder` (version_order.dfy): canonical specifiers (`Version`,
  `Render`, `Decode`). Among canonical specifiers with the same number of
  components, the comparator is a strict total order. Across different
  component counts it is not: `1` and `1.0` tie.
- `Manifest` (manifest.dfy): the manifest as a map from field names to
  values. A declaration group keeps its names in `Object.keys` order.
- `PackageSlots` (package_slots.dfy): the sync pass seen from one package.
  The package has four slots, one per group. The propagation theorems are
  proved here.
- `Sync` (sync.dfy): the sync pass over the whole manifest, as a function.
  Its slot-level theorems are lifted to the manifest here.
- `Shrink` (shrink.dfy): the eligibility projection, as a function.
- `Install` (install.dfy): the installer's argument vector and the rule for
  when its promise resolves.
- `Package` (package.dfy): the class `PackageJson`, whose methods change the
  manifest in place. `Shrink`, `Sync` (three nested loops) and
  `UpdateModules` (the `unshift`s) are each proved equal to the functions
  above.
- `Run` (run.dfy): the main run. It shrinks, loops over the four groups with
  per-group reports, and always syncs afterwards.

Two behaviours of the code differ from what its own comments or a first
reading suggest. The model follows the code in both cases:

- The comment at index.js:76 says exact pins are always larger. The code at
  index.js:77-80 reports the **ranged** operand as larger when exactly one
  operand has a caret (`Versions.IsLargerVersionSpec`).
- A group is skipped only when its key is absent after `shrink`
  (index.js:184). A group that holds only exact pins becomes an empty list.
  An empty list is truthy in JavaScript, so the installer is still called
  for it, with just `add` and the group flag
  (`Run.ExactOnlyGroupStillInstalls`). Skipping a group whose eligible set
  is empty would contradict the code.

Outside the four groups, the model also follows these details of the code:

- `replace('^', '')` removes the first caret wherever it stands.
- `split('.')` always yields at least one piece.
- A position that only `v2` lacks, or a `NaN` component, decides nothing
  either way. So the comparator is antisymmetric on all strings.
- A visit of the sync pass does nothing when the other group's specifier is
  the empty string (index.js:111). An empty specifier in the outer group is
  still compared, and it can be overwritten.

## Model

| member | source | states |
|---|---|---|
| Versions.RemoveFirstCaret | index.js:83 | a text without a caret is left as is, and a leading caret is dropped |
| Versions.CaretIndex | index.js:83 | the position of the first caret: a caret stands there and none before it, and it is the text's length exactly when there is no caret |
| Versions.RemoveFirstCaretAt | index.js:83 | for a text with a caret, the first caret, wherever it stands, is dropped and nothing else changes |
| Versions.SplitDots | index.js:84 | at least one piece, none containing a dot |
| Versions.SplitJoin | index.js:84 | splitting dot-free pieces joined by dots gives the pieces back |
| Versions.JoinSplit | index.js:84 | joining the pieces of a split by dots gives the text back |
| Versions.ToNumber | index.js:85 | a piece is a number exactly when it is all digits, otherwise NaN; the empty piece is 0, a single digit is its own value, and `n` digits stay below `10^n` |
| Versions.ToNumberConcat | index.js:85 | digits `a` followed by digits `b` read as `a`'s value shifted left by as many decimal places as `b` has digits plus `b`'s value, and NaN when either part is |
| Versions.LeadingZero | index.js:85 | a leading `0` does not change the number a piece converts to |
| Versions.Components | index.js:82-89 | one component per dot-separated piece of the caret-stripped text |
| Versions.CompareFromSpec | index.js:91-97 | the loop from position `i` answers by the first position from `i` below `v1`'s component count where one component is strictly greater, the greater one winning; it ties exactly when there is no such position |
| Versions.IsLargerVersion | index.js:71-80 | when exactly one operand has a caret, the ranged one is reported larger, against the comment at line 76 |
| Versions.IsLargerVersionSpec | index.js:71-99 | exactly one ranged operand: the ranged one is larger, against the comment at line 76; same kind: the first decisive position below `v1`'s component count decides, the greater component winning, and none means a tie |
| Versions.SelfIsTie | index.js:71-99 | every specifier ties with itself |
| Versions.Antisymmetric | index.js:71-99 | swapping the operands swaps "first larger" and "second larger" and keeps a tie, for all strings |
| VersionOrder.NumeralValue | index.js:85 | a rendered numeral converts back to its value |
| VersionOrder.DecodeRender | index.js:82-89 | a canonical specifier parses back to its caret flag and components |
| VersionOrder.ComparatorIsOrder | index.js:71-99 | on canonical specifiers of one length, the comparator is caret-first then lexicographic on the components |
| VersionOrder.LexTie | index.js:91-98 | the lexicographic reference comparison, on two lists of one length, ties exactly when they are equal |
| VersionOrder.TieMeansEqual | index.js:91-98 | two well-formed specifiers of one length tie exactly when they are the same string |
| VersionOrder.LargerTransitive | index.js:71-99 | on well-formed specifiers of one length, "larger" is transitive |
| PackageSlots.VisitSpec | index.js:111-120 | one visit of `Visit` changes only the two slots it compares, each of which ends with one of the two compared specifiers; it does nothing when the other group's specifier is missing or empty or when the two tie; it leaves the two tied when it compares them, and never gives a slot a specifier the comparator ranks lower |
| PackageSlots.EmptyNeverLarger | index.js:71-99 | the empty specifier is never reported larger |
| PackageSlots.PassInventsNothing | index.js:111-120 | after `Pass`, each slot holds a specifier some slot held before, and a changed slot holds a non-empty one |
| PackageSlots.PassKeepsSettled | index.js:111-120 | a package whose declared specifiers all tie pairwise is left unchanged |
| PackageSlots.PassKeepsSingle | index.js:111 | a package declared in one group only is left unchanged |
| PackageSlots.PassKeepsUniform | index.js:111-120 | a package with the same specifier in every group that declares it is left unchanged |
| PackageSlots.PassReachesMaximum | index.js:106-123 | if some slot holds a non-empty specifier `m`, no declared slot is empty, and every other declared specifier loses to `m` (ties only where it equals `m`), one pass puts `m` in every declared slot |
| PackageSlots.LargestDominates | index.js:71-99 | on ordered specifiers, the comparator maximum exists exactly when the package is declared, and it is declared and beats or equals every other |
| PackageSlots.PassReachesLargest | index.js:106-123 | with well-formed specifiers of one length, one pass gives every declaring group the comparator maximum |
| Sync.StepFrame | index.js:111-120 | one visit, `Step`, keeps the frame: same fields, same names in the same order, other fields untouched |
| Sync.OthersFrame | index.js:110-121 | the inner loop keeps the frame |
| Sync.PackagesFrame | index.js:109-122 | the middle loop keeps the frame |
| Sync.GroupsFrame | index.js:106-123 | the outer loop keeps the frame |
| Sync.StepSlots | index.js:111-120 | a visit for package `m` acts on `m`'s four slots as `Visit` and changes no other package |
| Sync.SyncSlots | index.js:106-123 | the whole pass `SyncPass`, seen from one package, is the slot-level `Pass` on its four slots |
| Sync.SyncKeepsFrame | index.js:106-123 | `SyncPass` adds or removes no field, group or name and leaves other fields as they were |
| Sync.SyncInventsNothing | index.js:106-123 | every specifier after the pass was already declared for that package in some group |
| Sync.SyncKeepsSettled | index.js:111-120 | a package whose specifiers all tie pairwise keeps them in every group |
| Sync.SyncKeepsSingle | index.js:111 | a package declared in one group only is untouched in every group |
| Sync.SyncReachesMaximum | index.js:106-123 | with well-formed specifiers of one length, every group declaring a package ends with the comparator maximum of its specifiers |
| Sync.SyncKeepsFixed | index.js:111-120 | a package whose slots the slot-level pass leaves alone keeps its specifier in every group |
| Sync.SecondPassSlots | index.js:106-123 | with well-formed specifiers of one length, a second pass leaves every package's four slots as the first pass left them |
| Sync.SyncIdempotent | index.js:106-123 | with well-formed specifiers of one length, a second pass changes nothing |
| Shrink.Eligible | index.js:56 | a name is kept exactly when the group declares it with a caret specifier; the kept names come in the group's own key order, and the list is no longer than the group |
| Shrink.EligibleDistinct | index.js:56 | the kept names are distinct |
| Shrink.ShrunkSpec | index.js:52-63 | in `Shrunk`, exactly the group keys present survive, each holding the group's caret-ranged names in the group's key order; a group with only exact pins becomes an empty list, not an absent key |
| Install.Flag | index.js:132-142 | no flag exactly for the production group; one flag otherwise |
| Install.InstallArgs | index.js:132-144 | the vector is `add`, then exactly the group's flag, then the group's names unchanged |
| Install.Outcome | index.js:153 | OK exactly when `Resolves` holds, that is when the close code is 0 or `null`; FAIL otherwise, never SKIP |
| Install.FlagsDistinct | index.js:132-142 | the four groups get four different flags, the production group none |
| Package.PackageJson.Shrink | index.js:52-63 | in place, the fields become the `shrink` of what they were |
| Package.PackageJson.Reconcile | index.js:111-120 | in place, one visit of the inner callback |
| Package.PackageJson.SyncPackage | index.js:110-121 | the inner loop in place |
| Package.PackageJson.SyncGroup | index.js:107-122 | the middle loop in place |
| Package.PackageJson.Sync | index.js:106-123 | the three loops in place leave the manifest as the sync pass of what it was |
| Package.PackageJson.UpdateModules | index.js:130-154 | returns `add`, the flag and the names; stores that vector in the group's slot (the `unshift`s mutate it); resolves exactly on close code 0 or `null` |
| Run.ReportsAt | index.js:184-190 | the k-th entry of `Reports` is `ReportFor` group k: SKIP if its key is absent, otherwise by its close code |
| Run.ReportsSpec | index.js:173-191 | SKIP exactly when the key is absent after `shrink`; OK exactly when present and the installer closed with 0 or `null` |
| Run.FailureIsolated | index.js:187-189 | changing one group's close code changes no other group's report |
| Run.CallsFromGroups | index.js:184-187 | every entry of `Calls` carries a present group's flag and names |
| Run.GroupsCalled | index.js:184-187 | every present group gets its installer call |
| Run.CallsCount | index.js:184-187 | one installer call per present group |
| Run.ExactOnlyGroupStillInstalls | index.js:184 | a present group with only exact pins is not skipped and calls the installer with just `add` and its flag |
| Run.SyncDependencies | index.js:101-126 | the sync step succeeds exactly when the reread and the write succeed, and what it writes is the sync pass of what it read |
| Run.UnshiftedAll | index.js:132-144 | after all four groups, each present group's list holds its own argument vector and no field is added or removed |
| Run.InstallAll | index.js:173-191 | in order over the four groups: the reports and calls above, each present group's list replaced by its argument vector |
| Run.UpdateAll | index.js:164-197 | shrink, then the group loop, then the sync step, whatever the groups reported |

## Left out

- Spawning `yarn` and its output (index.js:146-153). The close code is a
  parameter of `UpdateModules`, and the run takes a sequence of codes, one
  per group. A `yarn` that cannot be started at all makes the child emit
  `'error'` with no listener (index.js:148), which ends the whole process.
  The model does not cover that case: `Run.FailureIsolated`, and the sync
  step that `Run.UpdateAll` always runs, hold only when every installer
  process starts and closes.
- `rm -rf` of `node_modules` and `yarn.lock` (index.js:171). It does not
  affect the manifest. `cp.execSync` throws when the command exits non-zero,
  and that ends the run before any group is installed or synced. The model
  does not cover that case: `Run.UpdateAll` assumes the command succeeds.
- Reading and writing `package.json` and JSON parsing (index.js:66, 125).
  The manifest is an in-memory map. The second read is a parameter, `None`
  when it throws, and the write is a success flag.
- The spinner, colours, random colour timer, the final success symbol and
  verbose logging (index.js:56, 115, 118, 128, 157-162, 177-182, 185-189,
  193, 199-200). These are only output. The logging inside the `filter` at
  index.js:56 always yields a falsy value, so it does not change the
  result.
- The `argv` switch (index.js:69). It only selects the output style.
- JavaScript `Number()` on anything but digit strings. Hexadecimal,
  whitespace, signs, exponents and fractions are all treated as `NaN`.
- Versions.ToNumber: a digit string is read as an exact natural number.
  Unary `+` gives an IEEE double, which is exact only below 2^53 and is
  `Infinity` past about 309 digits. So where two components differ only
  beyond double precision, the source ties and the model does not: for
  `9007199254740993` against `9007199254740992`, the model reports the first
  as larger.
- Promise scheduling. Every `await` is sequential, so the run is a plain loop.
- Non-object group values and non-string specifiers in `package.json`. A
  group is a map from names to strings.
- Names inherited from `Object.prototype`, such as `constructor`. In the
  source, `pkg[dep][mod]` can find these even where `dep` does not declare
  `mod`. The model only sees declared names.
- The order in which `for...in` visits the manifest's fields in `shrink`.
  `PackageJson.Shrink` picks any order, and its result does not depend on
  it.
- Sync.SyncIdempotent: proved only when every specifier is canonical with
  one common component count, the same hypothesis as
  `Sync.SyncReachesMaximum`. For other manifests the model does not state
  that a second pass changes nothing. Without a strict order, comparator
  ties between different strings and the pass's own order of visits decide
  what each slot ends with. A general proof would need an invariant about
  which pairs of slots the visits so far have settled, and the model does
  not carry one.
- Sync.SecondPassSlots: proved under the same hypothesis as
  `Sync.SyncIdempotent`, for the same reason.
- Sync.SyncReachesMaximum: convergence is proved only for canonical
  specifiers with one common component count. With mixed lengths or `NaN`
  components, ties between different strings let the pass leave groups
  disagreeing. The source promises nothing there.
