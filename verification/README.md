# KSPackage mod-manager core in Dafny

This project models the logic at the heart of the KSPackage mod manager for Kerbal Space
Program. It covers three source files.

- **src/main/installMod.js**, version handling and installation:
  - the version-string normaliser `stripVersionPrefix`;
  - the comparator `versionCompare` with its `zeroExtend` and `lexicographical` options;
  - the compatibility rule `modIsCompatible` / `isWithinVersionRange`;
  - the dependency lookup `getDependency` / `resolveDependencies`;
  - the install planner inside `installMod`, which turns `install` directives and an archive's file list into copy operations;
  - the installed-mods bookkeeping of the `installMods` message handler.
- **src/main/repository.js**: `filterMods` keeps the compatible records and the newest record per identifier; the ingest test decides which metadata entries reach the catalog.
- **src/renderer/state.js**: the renderer's state reducers and the computed `selectedMod`.

Modules:

| module | file | what it holds |
|---|---|---|
| `Wrappers` | `wrappers.dfy` | `Option` and `Result` |
| `Text` | `text.dfy` | the JavaScript string operations the code uses |
| `Paths` | `paths.dfy` | POSIX `dirname` and `basename`, and `join` without normalisation |
| `Versions` | `versions.dfy` | normalisation, comparison, and the loop-level methods `VersionCompare`, `ComparePartLists`, `PadWithZeros` and `ScanKeys` |
| `Catalog` | `catalog.dfy` | the catalog record and install directive |
| `Compatibility` | `compatibility.dfy` | the compatibility rule |
| `Dependencies` | `dependencies.dfy` | dependency resolution |
| `InstallPlan` | `install_plan.dfy` | directive matching and copy operations |
| `Bookkeeping` | `bookkeeping.dfy` | the class `InstallRegistry` (the installed-mods database) and the batch handler |
| `Repository` | `repository.dfy` | `filterMods` as a loop over a map, and the ingest test |
| `RendererState` | `renderer_state.dfy` | the state reducers |

Shapes the model takes:

- **Comparison result.** `versionCompare` yields `Less`, `Equal`, `Greater` or `Incomparable`, which stands for JavaScript's `NaN`. A version argument is an `Option<string>`. A missing or empty argument is falsy, so the comparison answers `Equal`.
- **Epoch regex.** The lazy global regex `/(.+?):/g` is modelled exactly, including the fact that `.` does not match line terminators.
- **Letter suffixes.** A trailing run of non-digits becomes dotted parts `charCode - 97`. A character below `a` gives a negative number printed with a minus sign, so that part is invalid.
- **Environment.** Everything the source does through I/O is a parameter:
  - the catalog database is a sequence of records;
  - the archive download and unpack is a function from record to `Option<Archive>`;
  - whether a copy succeeds is a predicate on copy operations;
  - the `find_regexp` engine is a predicate on a pattern and a path;
  - `JSON.parse` is a function to an abstract JSON value.

Three behaviours of the code are modelled as written and proved as lemmas:

- **The GameData cut.** With no `install` list, the destination drops the first 9 characters of the path wherever `GameData/` occurs. See `InstallPlan.DefaultCutsFixedPrefix`.
- **The `file` prefix.** A `file` prefix that ends in a slash keeps only part of its last segment. See `InstallPlan.FileDestinationTrailingSlash`.
- **The `null` key.** With nothing selected, `selectedMod` reads the repository key `"null"`. See `RendererState.NullSelectionReadsNullKey`.

What the code does, and therefore what the model does:

- **Compatibility.** `ksp_version` is matched exactly or against `"any"`. There is no minor-version match.
- **Dependencies.** They are looked up by identifier only. `provides` aliases are not consulted, and the code carries a TODO for them at src/main/installMod.js:101.
- **Resolution.** `resolveDependencies` resolves one level. There is no recursive tree building, no `encountered` set and no flattening into an install queue.
- **Concurrency.** The mods of a batch run concurrently with `Promise.all`, not one after another.
- **Default convention.** It cuts a fixed 9 characters from the path wherever `GameData/` occurs in its directory. When the path starts with `GameData/`, that removes exactly this segment; elsewhere it cuts into other text.

## Model

| member | source | states |
|---|---|---|
| Versions.StripEpochs | src/main/installMod.js:26 | definition of `replace(/(.+?):/g, '')`; stated by `StripEpochsWithoutColon` and `EpochDropped` |
| Versions.Normalize | src/main/installMod.js:25-36 | definition of `stripVersionPrefix`; stated by `NormalizeBaseVersion`, `NormalizeIgnoresV`, `EpochDropped`, `SuffixRunNormalized` and `LetterSuffixNormalized` |
| Versions.Parts | src/main/installMod.js:42-43 | definition of `stripVersionPrefix(v).split('.')`; stated by `SuffixRunParts`, `TrailingZeroParts` and `LetterAParts` |
| Versions.ExpandLetterSuffix | src/main/installMod.js:28-35 | definition of the postfix expansion; stated by `SuffixRunNormalized` |
| Versions.RemoveV | src/main/installMod.js:26 | the result has no `v` or `V`; every character comes from the input, and every other character of the input is kept |
| Versions.RemoveVAppend | src/main/installMod.js:26 | removal works piece by piece, so the kept characters stay in order |
| Versions.RemoveVChar | src/main/installMod.js:26 | one character is dropped exactly when it is `v` or `V` |
| Versions.FirstIndexOfChar | src/main/installMod.js:26 | -1 exactly when the character is absent; otherwise an index holding it with no earlier occurrence |
| Versions.FirstHyphenToDot | src/main/installMod.js:26 | same length; only the first `-` becomes `.`, every other character is unchanged |
| Versions.ColonFrom | src/main/installMod.js:26 | a lazy `.+?:` match ends just after a colon inside the string |
| Versions.EpochMatch | src/main/installMod.js:26 | an epoch match spans at least one character and its colon |
| Versions.TrailingNonDigits | src/main/installMod.js:28 | the length of the longest non-digit suffix: all of it non-digits, preceded by a digit or the start |
| Versions.CharCodes | src/main/installMod.js:31 | one part per suffix character; part i is the printed `charCodeAt(0) - 97` of character i |
| Versions.LeadingDigits | src/main/installMod.js:46 | the digit run at the start of a part, followed by a non-digit or the end |
| Versions.ToKey | src/main/installMod.js:58-61 | in lexicographical mode the key is the part itself; otherwise it is the part's decimal value, `Number(part)` |
| Versions.LeadingZeroIgnored | src/main/installMod.js:59-60 | `Number` ignores a leading zero |
| Versions.ZeroPrefixedPartEqual | src/main/installMod.js:58-81 | in numeric mode a part with a leading zero compares Equal to the part without it |
| Versions.AppendDigitPart | src/main/installMod.js:42-43 | a plain version plus "." and a digit part splits into its parts plus that part |
| Versions.LeadingZerosEqual | src/main/installMod.js:38-82 | in numeric mode "1.007" equals "1.7", for every plain base version |
| Versions.ToKeys | src/main/installMod.js:58-61 | one key per part, each the part's key |
| Versions.CompareKeys | src/main/installMod.js:63-81 | the comparison loop never answers incomparable |
| Versions.Zeros | src/main/installMod.js:54-55 | exactly k parts, each "0" |
| Versions.ValidPart | src/main/installMod.js:45-47 | definition of `isValidPart`; stated by `Compare`, `CompareParts`, `BaseVersionValid` and `SuffixBelowLowercaseIncomparable` |
| Versions.ZeroExtend | src/main/installMod.js:53-56 | definition of the padding loops; stated by `ZeroExtendValid`, `ZeroExtendSameLength`, `PadWithZeros` and `ZeroExtendedTail` |
| Versions.KeyGreater | src/main/installMod.js:70 | definition of `>` on numbers and strings; stated by `KeyOrder`, `KeyGreaterTransitive` and `ZeroKeyLeast` |
| Versions.Compare | src/main/installMod.js:38-51 | a missing or empty argument gives Equal; Incomparable exactly when both are present and some normalised part fails `^\d+$` (or `^\d+[A-Za-z]*$` in lexicographical mode) |
| Versions.CompareParts | src/main/installMod.js:45-81 | Incomparable exactly when a part list holds an invalid part |
| Versions.ZeroExtendValid | src/main/installMod.js:53-56 | padding with "0" keeps parts valid and reaches the longer length |
| Versions.ZeroExtendSameLength | src/main/installMod.js:53-56 | padding to the list's own length changes nothing |
| Versions.PadWithZeros | src/main/installMod.js:53-56 | the two `while` loops pad both lists with "0" to the longer length |
| Versions.ScanKeys | src/main/installMod.js:63-81 | the early-return `for` loop computes the key comparison |
| Versions.VersionCompare | src/main/installMod.js:38-82 | the imperative comparator returns `Compare` of its arguments |
| Versions.ComparePartLists | src/main/installMod.js:45-81 | validation, padding, conversion and scan return `CompareParts` |
| Versions.KeyOrder | src/main/installMod.js:68-73 | `>` on keys of one kind is irreflexive, asymmetric and total on distinct keys |
| Versions.KeyGreaterTransitive | src/main/installMod.js:68-73 | `>` on keys of one kind is transitive |
| Versions.CompareKeysSelf | src/main/installMod.js:63-81 | a key list compares Equal with itself |
| Versions.CompareKeysFlip | src/main/installMod.js:63-81 | swapping the arguments flips the answer |
| Versions.CompareKeysFirstDifference | src/main/installMod.js:63-75 | the first differing key decides |
| Versions.CompareKeysProperPrefix | src/main/installMod.js:63-79 | a proper prefix is smaller |
| Versions.CompareKeysCommonPrefix | src/main/installMod.js:63-75 | a shared prefix does not affect the answer |
| Versions.CompareKeysTransitive | src/main/installMod.js:63-81 | at-most is transitive, and strict when either step is strict |
| Versions.ComparePartsSymmetric | src/main/installMod.js:45-81 | compare(a, b) is the flip of compare(b, a), Incomparable included |
| Versions.CompareSymmetric | src/main/installMod.js:38-82 | `versionCompare(a, b) == -versionCompare(b, a)` for all inputs |
| Versions.ComparePartsReflexive | src/main/installMod.js:45-81 | valid parts compare Equal with themselves |
| Versions.CompareReflexive | src/main/installMod.js:38-82 | `versionCompare(x, x)` is 0 unless x is present with an invalid part, then NaN |
| Versions.ComparePartsUnpadded | src/main/installMod.js:53-81 | for valid parts needing no padding, the answer is the key comparison |
| Versions.FirstDifferingPartDecides | src/main/installMod.js:53-75 | the first part whose value differs decides Greater or Less, with or without zeroExtend |
| Versions.ComparePartsTransitive | src/main/installMod.js:45-81 | without zeroExtend, at-most on part lists is transitive and strict through a strict step |
| Versions.CompareTransitive | src/main/installMod.js:38-82 | without zeroExtend, at-most on present versions is transitive and strict through a strict step |
| Versions.BelowThroughGreater | src/main/installMod.js:38-82 | if m <= h and l > h then m < l and l > m |
| Versions.CompareSameNormalForm | src/main/installMod.js:42-43 | versions with the same normal form compare alike against anything |
| Versions.ColonFromNone | src/main/installMod.js:26 | with no colon ahead the epoch regex does not match |
| Versions.ColonFromFinds | src/main/installMod.js:26 | the lazy match stops at the first colon |
| Versions.StripEpochsWithoutColon | src/main/installMod.js:26 | a version without a colon keeps its text |
| Versions.EpochDropped | src/main/installMod.js:26 | `epoch:rest` loses the epoch and its colon |
| Versions.RemoveVWithoutV | src/main/installMod.js:26 | a text without `v`/`V` is unchanged by their removal |
| Versions.NormalizeIgnoresV | src/main/installMod.js:26 | normalisation ignores every `v`/`V` |
| Versions.OnlyFirstHyphenReplaced | src/main/installMod.js:26 | a second hyphen stays a hyphen |
| Versions.BaseVersionShape | src/main/installMod.js:42-46 | a dotted digit version holds only digits and dots and ends in a digit |
| Versions.BaseVersionValid | src/main/installMod.js:45-49 | its parts are valid in both modes |
| Versions.LeadingDigitsOfDigits | src/main/installMod.js:46 | an all-digit part is all leading digits |
| Versions.NormalizeBaseVersion | src/main/installMod.js:25-36 | a dotted digit version is its own normal form, valid in both modes |
| Versions.BaseVersionWithZero | src/main/installMod.js:42-43 | appending ".0" appends the part "0" |
| Versions.SuffixRunNormalized | src/main/installMod.js:25-36 | a plain version followed by a run of non-digits normalises to the version, a dot and the run's character codes joined by dots |
| Versions.SuffixRunParts | src/main/installMod.js:25-43 | the parts of such a version are its own parts followed by one code per character ("1.0rc" gives 1, 0, 17, 2) |
| Versions.TrailingRun | src/main/installMod.js:28 | after a digit, the captured non-digit run is exactly the trailing run |
| Versions.LetterSuffixNormalized | src/main/installMod.js:28-32 | a one-letter suffix becomes the extra part `charCode - 97` |
| Versions.LetterSuffixParts | src/main/installMod.js:28-32 | the parts of `s` + letter are those of `s` plus that code |
| Versions.LetterSuffixPart | src/main/installMod.js:28-32 | for `a`..`z` the extra part is the digits of `charCode - 97` |
| Versions.ComparePartsLast | src/main/installMod.js:63-79 | lists that differ only in their last numeric part compare by it |
| Versions.LetterSuffixKeys | src/main/installMod.js:28-32 | "1.3b" against "1.3a" compares the letter codes |
| Versions.LetterSuffixOrder | src/main/installMod.js:28-81 | lowercase suffixes order as their letters ("1.3b" > "1.3a") |
| Versions.CharCodeOrder | src/main/installMod.js:31 | letter codes order as the letters |
| Versions.LetterAIsZeroPart | src/main/installMod.js:28-81 | "1.3a" equals "1.3.0" in every mode |
| Versions.LetterAParts | src/main/installMod.js:28-43 | "1.3a" and "1.3.0" have the same parts |
| Versions.SuffixBelowLowercaseIncomparable | src/main/installMod.js:31-51 | an uppercase or punctuation suffix makes the comparison incomparable |
| Versions.ComparePartsExtraZero | src/main/installMod.js:53-79 | a list is smaller than itself plus "0", equal when zero-extended |
| Versions.ZeroKey | src/main/installMod.js:54-61 | the padding part "0" is valid in both modes, and this is its key |
| Versions.ZeroKeyLeast | src/main/installMod.js:54-73 | no valid part is below the padding "0", as a number or as a string |
| Versions.ToKeysAppend | src/main/installMod.js:58-61 | converting parts to keys works piece by piece |
| Versions.ZeroExtendToAppend | src/main/installMod.js:53-56 | padding `p` to the length of `p + q` appends one zero per part of `q`, and `p + q` is not padded |
| Versions.ZeroPaddedKeys | src/main/installMod.js:53-61 | the keys of the padded `p` are `p`'s keys plus the zeros' keys |
| Versions.ComparePartsPadded | src/main/installMod.js:53-81 | with zeroExtend and a longer second list, the answer compares the padded first list with the second |
| Versions.ZeroPaddedParts | src/main/installMod.js:53-81 | with zeroExtend, `p` against `p + q` is the padding zeros against `q` |
| Versions.CompareKeysAgainstZeros | src/main/installMod.js:63-81 | zero keys against keys none below zero: Equal iff all are zero, otherwise Less |
| Versions.ZeroExtendedTail | src/main/installMod.js:53-81 | with zeroExtend, `p` against `p + q` is Equal iff every part of `q` is zero; otherwise the first nonzero part of `q` decides, and the answer is Less |
| Versions.ZeroExtendedExtraKey | src/main/installMod.js:53-81 | with zeroExtend, one extra numeric part gives Equal when it is 0 and Less otherwise |
| Versions.ZeroExtendedExtraPart | src/main/installMod.js:38-82 | with zeroExtend, "1.2" equals "1.2.0" and is below "1.2.3", for every plain base version |
| Versions.TrailingZeroPart | src/main/installMod.js:53-79 | "1.2" < "1.2.0", and equal with zeroExtend |
| Versions.TrailingZeroParts | src/main/installMod.js:42-43 | the parts of s + ".0" are those of s plus "0" |
| Versions.VersionIgnoresV | src/main/installMod.js:26 | "v1.0" compares as "1.0" |
| Versions.VersionIgnoresEpoch | src/main/installMod.js:26 | an epoch prefix does not affect comparison |
| Compatibility.IsWithinVersionRange | src/main/installMod.js:84-87 | definition of `isWithinVersionRange`; stated by `RangeAroundTarget` and `RangeIsInterval` |
| Compatibility.ModIsCompatible | src/main/installMod.js:89-98 | definition of `modIsCompatible`; stated by `CompatibilityRule` |
| Compatibility.CompatibilityRule | src/main/installMod.js:84-98 | exact `ksp_version` iff target or "any"; otherwise both bounds must admit the target, where missing or "any" admits all |
| Compatibility.IncomparableBoundFails | src/main/installMod.js:84-87 | an incomparable bound makes the record incompatible |
| Compatibility.ExactVersionIgnoresRange | src/main/installMod.js:90-92 | with an exact `ksp_version` the min/max bounds do not matter |
| Compatibility.RangeAroundTarget | src/main/installMod.js:84-87 | a range from the target to the target admits a valid target |
| Compatibility.RangeIsInterval | src/main/installMod.js:84-87 | a version between two admitted versions is admitted |
| Dependencies.FindById | src/main/installMod.js:10-16 | `findOne({_id})`: None exactly when no record has the key, otherwise a record with it |
| Dependencies.CompatibleVersions | src/main/installMod.js:102-106 | exactly the records with the dependency's identifier that are compatible |
| Dependencies.GetDependency | src/main/installMod.js:100-108 | keeps the name; `versions` is exactly the compatible records with that identifier |
| Dependencies.GetDependencies | src/main/installMod.js:113-123 | one entry per relationship, in order |
| Dependencies.ResolveDependencies | src/main/installMod.js:110-111 | no answer exactly when no record has the id |
| Dependencies.AllHaveVersions | src/main/installMod.js:125-127 | definition of the `autoResolvable` reduce; stated by `AllHaveVersionsMeaning` |
| Dependencies.Resolve | src/main/installMod.js:113-134 | definition of the answer for a found record; stated by `ResolveMeaning` and `OptionalRelationsIgnored` |
| Dependencies.AllHaveVersionsMeaning | src/main/installMod.js:125-127 | the reduce holds iff every dependency has a version |
| Dependencies.ResolveMeaning | src/main/installMod.js:110-135 | autoResolvable iff every `depends` entry has a compatible record; list lengths match the relationships |
| Dependencies.ResolutionMeaning | src/main/installMod.js:110-135 | the same for a record found by id |
| Dependencies.OptionalRelationsIgnored | src/main/installMod.js:117-127 | `recommends` and `suggests` never affect autoResolvable |
| InstallPlan.Selects | src/main/installMod.js:241-258 | definition of the three filters; stated by `FileDestination`, `FindDestination` and `FindDotSelectsTopLevelFile` |
| InstallPlan.Destination | src/main/installMod.js:244-258 | definition of the three destinations; stated by the same lemmas |
| InstallPlan.MatcherOf | src/main/installMod.js:240-260 | the first present non-empty field of `file`, `find`, `find_regexp` decides, and its value is the prefix, fragment or pattern; none matches nothing |
| InstallPlan.SelectFiles | src/main/installMod.js:243-256 | filter-then-map yields at most one entry per file |
| InstallPlan.SelectFilesMembers | src/main/installMod.js:243-256 | entries are exactly the selected files, each with its destination |
| InstallPlan.PlanFiles | src/main/installMod.js:240-260 | a directive plans exactly the files its matcher selects, with the matcher's destination |
| InstallPlan.HasGameDataChild | src/main/installMod.js:230 | definition of `dirname.match(/GameData\/./g)`; stated by `DefaultFiles` and `DefaultDestination` |
| InstallPlan.DefaultFiles | src/main/installMod.js:226-236 | exactly the files whose directory holds `GameData/` and one more character, each minus its first 9 characters |
| InstallPlan.Directives | src/main/installMod.js:226-266 | no `install` gives the default directive rooted at "GameData"; otherwise one plan per directive, in order |
| InstallPlan.Copies | src/main/installMod.js:270-275 | one copy per planned file: source under the unpack directory, target gameDirectory/install_to/destination |
| InstallPlan.CopyOperations | src/main/installMod.js:269-276 | fails iff a directive with files has no install_to, naming the first; otherwise one copy per planned file |
| InstallPlan.PlanInstall | src/main/installMod.js:218-276 | a metapackage yields no copies; otherwise the copies of its directives |
| InstallPlan.CopyOrder | src/main/installMod.js:269-276 | the j-th file of directive i is copied at offset TotalFiles(before i) + j: directive order, then file order |
| InstallPlan.CopyOperationsStep | src/main/installMod.js:269-276 | the reduce appends the last directive's copies to the earlier ones' |
| InstallPlan.SelectFilesAppend | src/main/installMod.js:243-256 | selection keeps archive order |
| InstallPlan.PlanFilesAppend | src/main/installMod.js:240-260 | a directive's plan keeps archive order |
| InstallPlan.FileDestination | src/main/installMod.js:241-246 | for a prefix not ending in a slash the destination is its basename plus the rest of the path |
| InstallPlan.FileDestinationTrailingSlash | src/main/installMod.js:242 | a prefix ending in a slash keeps part of its last segment ("od/a.cfg") |
| InstallPlan.FindDestination | src/main/installMod.js:247-253 | a selected file's destination starts at the fragment |
| InstallPlan.FindDotSelectsTopLevelFile | src/main/installMod.js:248-252 | `find: "."` selects a top-level name without a dot, kept whole |
| InstallPlan.DefaultDestination | src/main/installMod.js:230-232 | a selected default file is longer than 9 characters and loses exactly 9 |
| InstallPlan.DefaultCutsFixedPrefix | src/main/installMod.js:230-232 | "Mod/GameData/Mod/a.cfg" is installed as "ata/Mod/a.cfg" |
| Catalog.IsMetapackage | src/main/installMod.js:219 | definition of `mod.kind === 'metapackage'`; stated by `PlanInstall` and `MetapackagesNeedNothing` |
| Bookkeeping.IdInstalls | src/main/installMod.js:282-284 | definition of one id's `getMod` then `installMod`; stated by `BatchSucceeds`, `UnknownIdFailsBatch` and `OneFailureFailsBatch` |
| Bookkeeping.InstallModSucceeds | src/main/installMod.js:218-279 | definition of when `installMod(mod)` resolves; stated by `MetapackagesNeedNothing` |
| Bookkeeping.BatchSucceeds | src/main/installMod.js:281-285 | definition of when `installMods` resolves; stated by `OneFailureFailsBatch`, `UnknownIdFailsBatch` and `BatchOrderIrrelevant` |
| Bookkeeping.RecordsAfter | src/main/installMod.js:288-294 | success keeps every batch id; failure removes them all; other ids unchanged |
| Bookkeeping.InstallRegistry.Insert | src/main/installMod.js:288 | `insert({_id})` adds the id (a repeated id changes nothing) |
| Bookkeeping.InstallRegistry.Remove | src/main/installMod.js:294 | `remove({_id})` deletes the id |
| Bookkeeping.InstallRegistry.HandleInstallMods | src/main/installMod.js:287-295 | records every id, then keeps them and replies installed iff every id installs, else removes them all and replies failed |
| Bookkeeping.OneFailureFailsBatch | src/main/installMod.js:281-285 | one failing id fails the batch |
| Bookkeeping.UnknownIdFailsBatch | src/main/installMod.js:282-284 | an id with no record fails the batch |
| Bookkeeping.MetapackagesNeedNothing | src/main/installMod.js:219 | a batch of metapackages succeeds whatever the environment does |
| Bookkeeping.BatchOrderIrrelevant | src/main/installMod.js:281-285 | the outcome does not depend on the batch's order |
| Bookkeeping.FailureForgetsEarlierBatches | src/main/installMod.js:288-294 | a failed batch removes an id recorded by an earlier successful batch |
| Repository.LatestByIdentifier | src/main/repository.js:21-26 | definition of the reduce with the intended test; stated by `LatestShape`, `LatestIsNewest` and `FirstNewestWins` |
| Repository.IsNewer | src/main/repository.js:22 | definition of `versionCompare(a, b) > 0`; stated by `IsNewerIrreflexive`, `IsNewerTransitive` and `IsNewerNegativelyTransitive` |
| Repository.Truthy | src/main/repository.js:79 | definition of JavaScript truthiness of a parsed value; stated by `IngestRule` |
| Repository.HasTruthyField | src/main/repository.js:79 | definition of `parsed.name` being truthy; stated by `IngestRule` |
| Repository.Stored | src/main/repository.js:78-81 | definition of when an entry reaches `modDB.insert`; stated by `IngestRule` |
| Repository.FilterCompatible | src/main/repository.js:18 | exactly the records compatible with the target |
| Repository.Keep | src/main/repository.js:21-26 | the record takes its identifier's slot or the held record stays; other slots unchanged |
| Repository.KeepStep | src/main/repository.js:22-23 | the reduce callback's update is `Keep` with `versionCompare(...) > 0` |
| Repository.FilterMods | src/main/repository.js:16-31 | the loop over compatible records builds `LatestByIdentifier` of them |
| Repository.LatestShape | src/main/repository.js:21-28 | one entry per identifier present, each a record of the list with that identifier |
| Repository.LatestKeys | src/main/repository.js:21-28 | the keys are exactly the identifiers |
| Repository.LatestValues | src/main/repository.js:21-26 | every entry is a list record filed under its own identifier |
| Repository.FilterModsResult | src/main/repository.js:16-31 | one entry per identifier with a compatible record, each compatible with "1.4.1" |
| Repository.KeepRefuses | src/main/repository.js:22-23 | an older, equal or incomparable version never displaces the held record |
| Repository.KeepAsWritten | src/main/repository.js:22-23 | definition of the reduce step as written, where an inherited identifier meets a truthy `list[id]` |
| Repository.LatestByIdentifierAsWritten | src/main/repository.js:21-26 | definition of the reduce as written |
| Repository.InheritedNeverStored | src/main/repository.js:22-23 | as written, no record whose identifier every object inherits is ever kept |
| Repository.AsWrittenAgreesElsewhere | src/main/repository.js:21-26 | on every other identifier, the reduce as written and the intended one agree |
| Repository.InheritedIdentifierLost | src/main/repository.js:16-31 | a single compatible record named, say, "constructor" is lost as written and kept as intended |
| Repository.LatestIsMaximal | src/main/repository.js:21-26 | with a transitive newer test, no record is newer than the one kept |
| Repository.EarliestNewestWins | src/main/repository.js:22-23 | among equally new records the earliest is kept |
| Repository.FirstRecordStays | src/main/repository.js:22-23 | a first record nothing beats stays |
| Repository.IsNewerIrreflexive | src/main/repository.js:22 | no version is newer than itself |
| Repository.IsNewerTransitive | src/main/repository.js:22 | `versionCompare(a, b) > 0` is transitive |
| Repository.IsNewerNegativelyTransitive | src/main/repository.js:22 | on valid versions, newer than b implies newer than anything not newer than b |
| Repository.LatestIsNewest | src/main/repository.js:21-26 | with valid versions, the kept record is at least as new as every record with its identifier |
| Repository.FirstNewestWins | src/main/repository.js:22-23 | with valid versions, the first record of the maximal version wins ties |
| Repository.UnbeatableFirstRecordStays | src/main/repository.js:22-23 | a first record with a missing or invalid version is never displaced |
| Repository.Ingest | src/main/repository.js:77-81 | exactly the entries that parse and pass the filter are stored |
| Repository.IngestAppend | src/main/repository.js:77-81 | the records of earlier files come before those of later ones |
| Repository.IngestOne | src/main/repository.js:77-81 | one file yields its parsed value exactly when it is stored |
| Repository.IngestRule | src/main/repository.js:79-80 | an object is stored iff neither `repositories` nor `builds` is truthy |
| RendererState.InitialState | src/renderer/state.js:4-9 | empty maps and no selection |
| RendererState.IndexById | src/renderer/state.js:13-16 | every entry is a record of the list under its own `_id` |
| RendererState.SetRepositoryContent | src/renderer/state.js:11-17 | only the repository changes, to `IndexById` of the list: a map from `_id` to a record of the list |
| RendererState.AssignFlag | src/renderer/state.js:20-23 | `Object.assign({}, flags, {[id]: value})`: sets the flag for every id but `__proto__`, keeps every other key, and never holds a `__proto__` key |
| RendererState.SetModInstalling | src/renderer/state.js:19-24 | sets `installing[id]`, except that the id `__proto__` is ignored; every other key and field unchanged |
| RendererState.SetModInstalled | src/renderer/state.js:26-31 | sets `installed[id]`, except that the id `__proto__` is ignored; every other key and field unchanged |
| RendererState.SelectedKey | src/renderer/state.js:38 | definition of the key `repository[selected]` reads, "null" for a null selection; stated by `NullSelectionReadsNullKey` and `SelectLoadedMod` |
| RendererState.SelectMod | src/renderer/state.js:33-35 | only `selected` changes |
| RendererState.SelectedMod | src/renderer/state.js:38 | `repository[selected]`, absent when the key is absent |
| RendererState.IndexByIdMeaning | src/renderer/state.js:11-17 | keys are exactly the `_id`s, each bound to the last record with it |
| RendererState.IndexByIdKeys | src/renderer/state.js:13-16 | the keys are exactly the `_id`s of the list |
| RendererState.IndexByIdLast | src/renderer/state.js:13-16 | a later record with the same `_id` overwrites an earlier one |
| RendererState.InstallingFlags | src/renderer/state.js:19-24 | setting a flag is idempotent; settings of distinct ids commute |
| RendererState.InstalledFlags | src/renderer/state.js:26-31 | setting a flag is idempotent; settings of distinct ids commute |
| RendererState.SelectLoadedMod | src/renderer/state.js:11-38 | selecting a loaded record's `_id` makes it `selectedMod` |
| RendererState.NullSelectionReadsNullKey | src/renderer/state.js:8-38 | with nothing selected, `selectedMod` is found iff some record's `_id` is "null" |
| Text.Substring | src/main/installMod.js:232-251 | definition of `substring(start)` with its clamping; stated by `KeepSuffixOfPrefix`, `DefaultDestination` and `FindDotSelectsTopLevelFile` |
| Text.IndexOf | src/main/installMod.js:243 | `indexOf`: -1 iff no occurrence, else the first occurrence |
| Text.Split | src/main/installMod.js:42-43 | `split('.')` gives at least one piece, none containing the separator |
| Text.SplitThenJoin | src/main/installMod.js:31-43 | joining the pieces of a split restores the text |
| Text.JoinThenSplit | src/main/installMod.js:31-43 | splitting a join of separator-free pieces restores the pieces |
| Text.Join | src/main/installMod.js:31 | definition of `join('.')`; stated by `SplitThenJoin` and `JoinThenSplit` |
| Text.IntToString | src/main/installMod.js:31 | JavaScript's printing of an integer: digits only, with a leading minus sign exactly for negatives |
| Text.DecimalValue | src/main/installMod.js:59 | definition of `Number` on a digit string; stated by `DecimalValueOfNatToString` and `LeadingZeroIgnored` |
| Text.StrLess | src/main/installMod.js:70 | definition of string `<` by code units; stated by `StrLessTransitive` and `KeyOrder` |
| Text.DecimalValueOfNatToString | src/main/installMod.js:31-59 | `Number` reads back a printed natural number |
| Text.StrLessTransitive | src/main/installMod.js:70 | string `<` is transitive |
| Paths.Dirname | src/main/installMod.js:230-249 | definition of `path.dirname`; stated by `DirnameWithoutSlash`, `DirnameIsPrefix` and `DirnameAtLastSlash` |
| Paths.Basename | src/main/installMod.js:242 | definition of `path.basename`; stated by `BasenameIsSuffix` and `BasenameAfterLastSlash` |
| Paths.JoinPath | src/main/installMod.js:271-272 | definition of `path.join` for segments that need no normalisation; stated by `Copies` |
| Paths.DirnameWithoutSlash | src/main/installMod.js:249 | a slash-free name's directory is "." |
| Paths.DirnameIsPrefix | src/main/installMod.js:249 | `dirname` is "." or a prefix of the path |
| Paths.BasenameIsSuffix | src/main/installMod.js:242 | `basename` of a path without a trailing slash is its suffix |
| Paths.DirnameAtLastSlash | src/main/installMod.js:230 | `dirname` is everything before the last slash |
| Paths.BasenameAfterLastSlash | src/main/installMod.js:242 | `basename` is what follows the last slash |

## Findings

| source | as written | input that shows it | evidently intended | confidence | as-written member | corrected member |
|---|---|---|---|---|---|---|
| src/main/repository.js:22-23 | `!list[mod.identifier]` is false for an identifier the empty `{}` inherits, and `versionCompare(mod.version, undefined)` is 0, so the record is never stored | `filterMods` of one compatible record whose identifier is "constructor" returns an empty list | every identifier with a compatible record gets its newest record | high; not executed | Repository.InheritedIdentifierLost | Repository.FilterModsResult |

## Left out

- The user interface is not modelled: the React components and the install queue that src/renderer/app.js builds from a dependency answer.
- Downloading, unpacking, `mkdirp` and copying are parameters of the environment. The file list of an archive is an input sequence.
- Progress fractions are not modelled, because they are floating point.
- The regular-expression engine behind `find_regexp` is a predicate parameter. An invalid pattern, which throws, is not modelled.
- `JSON.parse` is a function parameter to an abstract JSON value.
- `path.join` is plain `/` concatenation. It does not normalise `..`, `.` or repeated slashes.
- Version parts are unbounded naturals, so precision loss in `Number` above 2^53 is not modelled.
- Versions.CharCodes: a character is a Unicode scalar value here, while JavaScript strings are UTF-16 code units. A character outside the Basic Multilingual Plane is one suffix part here, but `split('')` makes it two surrogate parts in the source: "1😀" normalises to "1.55260.56735" there and to "1.128415" here. Lone surrogates cannot be represented.
- Promise concurrency is not modelled. A batch is one step whose outcome is all-succeed or any-fails.
- Bookkeeping.InstallRegistry.HandleInstallMods: the source issues the batch's `insert` calls without waiting for them, so an insert could still be pending when a removal runs. The model performs them in order.
- InstallPlan.CopyOperations: when a later directive throws, copies already started for earlier directives are not modelled. The result is just the error.
- Versions.CompareTransitive: transitivity is proved only without `zeroExtend`. The zero-extended comparison, which pads each pair to its own longer length, is not covered.
- Repository.FilterMods: it returns the dictionary itself, not `Object.keys(...).map(...)`. JavaScript's key order (integer-like keys first) is not modelled.
- Repository.Keep, Repository.KeepStep, Repository.FilterMods, Repository.FilterModsResult: these follow the intended behaviour for identifiers that every object inherits from `Object.prototype` (`constructor`, `toString`, `valueOf`, `hasOwnProperty`, `__proto__` and the rest). The source's behaviour is `Repository.KeepAsWritten`; see "## Findings".
- RendererState.SelectedMod: for a selected key that the repository does not hold but every object inherits (`constructor`, `toString` and the like), `repository[selected]` gives a function in the source. The model answers absent.
- RendererState.IndexById: a record whose `_id` is `__proto__` replaces the dictionary's prototype in the source instead of adding an entry. This is not modelled.
- A relationship entry without `name` is not modelled.
- `getMod` database errors, which reject the promise, are not modelled.
- The listing order of the catalog database (sorted by name when sent to the window) is not modelled, because the catalog is an input sequence.
- The zip-reading fetch handler of src/main/repository.js:39-113 is not modelled. It returns early at lines 41-43, so only its ingest test is modelled.
- src/main/db.js, src/main/settings.js, src/main/index.js, src/main/network.js and src/main/modlist.js are not part of this model. They hold database handles, settings, window lifecycle and network transport.
