# kernsweep decision core, modelled in Dafny

kernsweep picks the obsolete Linux kernel packages of a Debian or Ubuntu system and removes
them with apt-get. This project models the part of it that decides, and proves what it decides:

- `compare_kernel_versions` (module `Version`): the anchored prefix match
  `^(\d+)\.(\d+)\.(\d+)-(\d+)` is written as a greedy digit-run matcher, the four groups are read
  as integers and compared as a tuple; when either string lacks the prefix, the strings are
  compared by code point as Python's `<` on `str` does (module `Text`).
- `analyze_kernels` (module `Analyzer`): a method over caller-owned `KernelInfo` objects
  (module `Detector`). It rejects an empty list and a list without a running record, picks the
  first running record, folds for the latest record (strict greater, so ties keep the earliest),
  sets `is_latest` on that object, partitions the package names by exact version membership and
  runs the safety gate. The function `AnalysisOf` says what it returns; its lemmas say what that
  means.
- `validate_removal_safety`, `match_headers_to_kernels` and `get_protected_packages`.
- `generate_apt_command`, `remove_packages` and `_execute_apt_removal` (module `Remover`). The
  privilege check and the outcome of running apt-get are parameters: `isRoot` and an
  `AptOutcome` (an exit code, a `SubprocessError` with its text, or an `OSError` raised while
  starting apt-get).

Exceptions become `Result` values carrying the exception class and its exact message (module
`Errors`). ansible/lib/kernsweep.py embeds the same code verbatim; the same definitions model it:
`compare_kernel_versions` at ansible/lib/kernsweep.py:313-346, `analyze_kernels` at 347-399,
`match_headers_to_kernels` at 400-419, `validate_removal_safety` at 420-458,
`get_protected_packages` at 459-475, `RemovalStatus` at 479-483, `_execute_apt_removal` at
496-521, `remove_packages` at 522-546 and `generate_apt_command` at 547-564, `KernelInfo` at
181-194 and `AnalysisResult` at 297-312.

Where the project's tests and the code disagree, the model follows the code:

- `analyze_kernels([])` raises "No kernels provided for analysis"; it does not return the empty
  result that tests/test_analyzer.py:162-170 expects.
- Headers match by exact version after every `linux-headers-` is removed; a `-common` header is
  never matched to its flavoured kernel (`Analyzer.CommonHeaderIsReported`), whereas
  tests/test_analyzer.py:275-292 expects the `-common` header of a kept version to be kept.
- No "same base version" collapse exists, as tests/test_reporter.py:190 supposes: the latest
  kernel is the result of the fold alone.

## Model

| member | source | states |
|---|---|---|
| `Text.LeadingDigits` | kernsweep/analyzer.py:50 | the greedy `\d+` run: a digit prefix that cannot be extended |
| `Text.NatToDecimal` | kernsweep/analyzer.py:218 | the decimal text of a count is all digits, has no leading zero and reads back as the count |
| `Text.IntToDecimal` | kernsweep/remover.py:61 | an exit code prints as its decimal value, with a minus sign when negative |
| `Text.IntToDecimalInjective` | kernsweep/remover.py:61 | distinct exit codes print differently |
| `Text.NatToDecimalInjective` | kernsweep/analyzer.py:218 | distinct counts print differently |
| `Text.DecimalOfValue` | kernsweep/analyzer.py:65-66 | a digit run without leading zero is the printed form of its `int()` value |
| `Text.DigitsValueNoLeadingZero` | kernsweep/analyzer.py:65-66 | a run not starting with `0` has a positive value |
| `Text.DigitsValue` | kernsweep/analyzer.py:65-66 | `int()` of a digit run, read most significant digit first; `DecimalOfValue` and `NatToDecimal` tie it to the printed form |
| `Text.StrLess` | kernsweep/analyzer.py:57-62 | Python's `<` on `str`: the first differing code point decides, a proper prefix is below; the five `StrLess` lemmas prove it a strict total order |
| `Text.Contains` | kernsweep/analyzer.py:210 | Python's `pat in s`; `ContainsMeaning` proves it holds exactly when `pat` occurs at some position |
| `Text.StrLessIrreflexive` | kernsweep/analyzer.py:57-62 | no string is below itself in Python's string order |
| `Text.StrLessAsymmetric` | kernsweep/analyzer.py:57-62 | `a < b` excludes `b < a` |
| `Text.StrLessTotal` | kernsweep/analyzer.py:57-62 | distinct strings are ordered one way or the other |
| `Text.StrLessTransitive` | kernsweep/analyzer.py:57-62 | the string order is transitive |
| `Text.StrLessCommonPrefix` | kernsweep/analyzer.py:57-62 | a shared prefix does not decide the order |
| `Text.ContainsMeaning` | kernsweep/analyzer.py:210 | `pat in s` holds exactly when `pat` occurs at some position of `s` |
| `Text.ContainsInfix` | kernsweep/analyzer.py:210 | a string built around `pat` contains it |
| `Text.NotContainsWithoutChar` | kernsweep/analyzer.py:210 | a string lacking one of `pat`'s characters does not contain `pat` |
| `Text.RemoveAll` | kernsweep/analyzer.py:165 | `str.replace(pat, "")` never lengthens the string |
| `Text.RemoveAllAbsent` | kernsweep/analyzer.py:165 | removing an absent pattern changes nothing |
| `Text.RemoveAllLeading` | kernsweep/analyzer.py:165 | a leading occurrence is removed and the scan resumes after it |
| `Version.MatchPrefix` | kernsweep/analyzer.py:50-53 | `re.match` of `^(\d+)\.(\d+)\.(\d+)-(\d+)`; `MatchPrefixSound` and `MatchPrefixComplete` prove it finds exactly the strings of that shape and their groups |
| `Version.ParseKey` | kernsweep/analyzer.py:52-53 | the four groups read as integers, when both matches exist; `ParseIgnoresSuffix` and `NoKeyWithoutLeadingDigit` say when a key exists |
| `Version.CompareStrings` | kernsweep/analyzer.py:57-62 | the fallback's three-way answer from `<` and `>`; `FallbackBranch` states it for both orders and equality |
| `Version.MatchGroups` | kernsweep/analyzer.py:50-53 | a successful match captures one group per `(\d+)` of the pattern |
| `Version.MatchGroupsRuns` | kernsweep/analyzer.py:50-53 | every captured group is a non-empty digit run and the text after the match does not start with a digit |
| `Version.MatchGroupsSpells` | kernsweep/analyzer.py:50-53 | the groups and separators spell the matched string's prefix again (soundness) |
| `Version.MatchPrefixSound` | kernsweep/analyzer.py:50-53 | `re.match` on the pattern yields four digit runs joined by `.`, `.`, `-` that spell the input |
| `Version.MatchPrefixComplete` | kernsweep/analyzer.py:50-53 | every string `a.b.c-d...` with digit runs matches, with the groups `a`, `b`, `c` and the maximal run after `c-` (completeness) |
| `Version.LeadingDigitsAppend` | kernsweep/analyzer.py:50 | the greedy run over `run + tail` is `run` and the greedy run of `tail` |
| `Version.ParseIgnoresSuffix` | kernsweep/analyzer.py:50-66 | a flavour suffix not starting with a digit does not change the parsed key |
| `Version.NoKeyWithoutLeadingDigit` | kernsweep/analyzer.py:55 | a string not starting with a digit takes the fallback branch |
| `Version.CompareParts` | kernsweep/analyzer.py:69-75 | the zip loop returns -1, 0 or 1 |
| `Version.CompareKernelVersions` | kernsweep/analyzer.py:34-75 | the comparison returns -1, 0 or 1 |
| `Version.ComparePartsIsTupleOrder` | kernsweep/analyzer.py:65-75 | the zip loop over the four parts is the lexicographic order of `(major, minor, patch, build)` |
| `Version.NumericBranch` | kernsweep/analyzer.py:64-75 | when both strings match, the result is the tuple order of their keys |
| `Version.FallbackBranch` | kernsweep/analyzer.py:55-62 | otherwise the result is -1, 1 or 0 exactly for `<`, `>` and equality of the strings |
| `Version.CompareReflexive` | kernsweep/analyzer.py:34-75 | every version compares equal to itself |
| `Version.CompareAntisymmetric` | kernsweep/analyzer.py:34-75 | swapping the arguments negates the result, in both branches |
| `Version.TupleCompareTransitive` | kernsweep/analyzer.py:69-75 | the tuple order is transitive, strictly after a strict step |
| `Version.CompareTransitive` | kernsweep/analyzer.py:64-75 | among versions with a numeric prefix the comparison is a total preorder |
| `Version.FlavourIgnored` | kernsweep/analyzer.py:50-75 | equal numeric prefixes compare equal whatever the flavours |
| `Version.LowlatencyEqualsGeneric` | kernsweep/analyzer.py:50-75 | `5.15.0-82-lowlatency` and `5.15.0-82-generic` compare equal |
| `Version.MajorDecides` | kernsweep/analyzer.py:65-75 | with the rest equal, the larger major number wins (numeric, not textual: 100 beats 5) |
| `Version.MixedVersionsCycle` | kernsweep/analyzer.py:55-75 | across the two branches the comparison can cycle (`9.0.0-1` < `10.0.0-1` < `9` < `9.0.0-1`), so it is no order on mixed versions |
| `Version.CustomNamesCompareAsText` | kernsweep/analyzer.py:55-62 | `custom-kernel-a` is below `custom-kernel-b` by the fallback |
| `Detector.KernelInfo.constructor` | kernsweep/detector.py:14-28 | a record holds the given version, package name and flags |
| `Analyzer.FirstRunning` | kernsweep/analyzer.py:98-105 | the first record flagged running, and none exactly when no record is flagged |
| `Analyzer.LatestBy` | kernsweep/analyzer.py:108-111 | the fold picks one of the records |
| `Analyzer.LatestIndex` | kernsweep/analyzer.py:108-111 | the record marked latest is the fold under `compare_kernel_versions`, one of the records |
| `Analyzer.LaterNotNewer` | kernsweep/analyzer.py:108-111 | whatever the comparison, no record after the chosen one compares greater |
| `Analyzer.LatestByIsNewest` | kernsweep/analyzer.py:108-111 | under an order, the chosen record is newest and every earlier record is strictly older: ties keep the earliest |
| `Analyzer.CompareOrdersKeyed` | kernsweep/analyzer.py:34-75 | the version comparison is an order on versions with a numeric prefix |
| `Analyzer.LatestIsNewest` | kernsweep/analyzer.py:108-113 | with numeric versions, the record marked latest is the earliest of the newest |
| `Analyzer.ProtectedVersions` | kernsweep/analyzer.py:116 | the set of the running and latest versions; `ProtectedNeverObsolete` and `PartitionCovers` state what the partition does with it |
| `Analyzer.PackagesWhere` | kernsweep/analyzer.py:120-124 | each side of the partition is no longer than the input |
| `Analyzer.PackagesWhereAppend` | kernsweep/analyzer.py:120-124 | the partition is a filter: it commutes with concatenation and keeps input order |
| `Analyzer.PackagesWhereMembership` | kernsweep/analyzer.py:120-124 | a name is on a side exactly when a record with that name has a version on that side |
| `Analyzer.PartitionCovers` | kernsweep/analyzer.py:116-124 | protected and obsolete together are the input's names, each once (as multisets, and by length) |
| `Analyzer.ImagesIn` | kernsweep/analyzer.py:210 | the image filter is never longer than its input (the append, all and none lemmas pin its contents) |
| `Analyzer.ImagesInAppend` | kernsweep/analyzer.py:210 | the image filter commutes with concatenation |
| `Analyzer.ImagesInAll` | kernsweep/analyzer.py:210 | entries that all contain `linux-image-` are all counted |
| `Analyzer.ImagesInNone` | kernsweep/analyzer.py:210 | entries none of which contains `linux-image-` are not counted |
| `Analyzer.ValidateRemovalSafety` | kernsweep/analyzer.py:174-220 | safe exactly when running and latest images are not in the plan, a kernel remains and at most 5 images go; otherwise the message of the first failing check, in order |
| `Analyzer.SafetyIgnoresNonImages` | kernsweep/analyzer.py:209-218 | entries without `linux-image-`, such as headers, never change the verdict |
| `Analyzer.RunningRemovedMessage` | kernsweep/analyzer.py:202 | the running-kernel refusal text; `RunningRemovedNamesVersion` proves it names the kernel and its version |
| `Analyzer.LatestRemovedMessage` | kernsweep/analyzer.py:207 | the latest-kernel refusal text; `LatestRemovedNamesVersion` proves it names the kernel and its version |
| `Analyzer.BulkMessage` | kernsweep/analyzer.py:218 | the bulk-removal refusal text; `BulkMessageNamesCount` proves it names the count |
| `Analyzer.RunningRemovedNamesVersion` | kernsweep/analyzer.py:202 | the refusal names the running kernel and its version |
| `Analyzer.LatestRemovedNamesVersion` | kernsweep/analyzer.py:207 | the refusal names the latest kernel and its version |
| `Analyzer.BulkMessageNamesCount` | kernsweep/analyzer.py:218 | the bulk refusal names the count as `N kernels` and says `excessive` |
| `Analyzer.AnalysisOf` | kernsweep/analyzer.py:78-143 | the two errors, and on success the running and latest versions, the two sides of the partition and no headers |
| `Analyzer.WellNamedAnalysis` | kernsweep/analyzer.py:116-135 | with `linux-image-<version>` names, neither the running nor the latest image is obsolete and the analysis fails exactly when more than 5 are obsolete, with the bulk message |
| `Analyzer.ProtectedNeverObsolete` | kernsweep/analyzer.py:116-124 | with such names, the image of a kept version is never obsolete |
| `Analyzer.ObsoleteAreImages` | kernsweep/analyzer.py:116-124 | with such names, every obsolete entry counts as an image |
| `Analyzer.SomeKernelRemains` | kernsweep/analyzer.py:116-124 | a kept record leaves at least one package off the obsolete side |
| `Analyzer.SuccessIsSafe` | kernsweep/analyzer.py:126-143 | a successful analysis never offers the running or latest image, leaves a kernel and removes at most 5 |
| `Analyzer.AnalyzeKernels` | kernsweep/analyzer.py:78-143 | returns what `AnalysisOf` says of the records on entry; sets `is_latest` on exactly the latest record once a running one exists; changes no other flag |
| `Analyzer.FindRunning` | kernsweep/analyzer.py:98-105 | the search loop returns the first running record, or none |
| `Analyzer.FindLatest` | kernsweep/analyzer.py:108-111 | the fold loop returns the record `LatestIndex` picks |
| `Analyzer.Partition` | kernsweep/analyzer.py:116-124 | the partition loop builds both sides in input order |
| `Analyzer.ObsoleteHeaders` | kernsweep/analyzer.py:160-171 | the header filter is never longer than its input (the append and membership lemmas pin its contents) |
| `Analyzer.MatchHeadersToKernels` | kernsweep/analyzer.py:146-171 | the loop returns, in input order, exactly the headers whose version is not kept |
| `Analyzer.ObsoleteHeadersAppend` | kernsweep/analyzer.py:160-171 | the header filter commutes with concatenation |
| `Analyzer.ObsoleteHeadersMembership` | kernsweep/analyzer.py:160-171 | a header is reported exactly when it is installed and its version is not kept |
| `Analyzer.HeaderVersion` | kernsweep/analyzer.py:165 | `header.replace("linux-headers-", "")`; `CanonicalHeaderVersion` proves it recovers `v` from `linux-headers-v` |
| `Analyzer.CanonicalHeaderVersion` | kernsweep/analyzer.py:165 | the version of `linux-headers-v` is `v` |
| `Analyzer.HeaderMatchIsExact` | kernsweep/analyzer.py:162-169 | a canonical header is kept exactly when its version is in the keep set |
| `Analyzer.LowlatencyHeaderNotKeptByGeneric` | kernsweep/analyzer.py:162-169 | the `-lowlatency` header is reported when only `-generic` is kept |
| `Analyzer.CommonHeaderIsReported` | kernsweep/analyzer.py:162-169 | the `-common` header is reported when only its flavoured kernel is kept |
| `Analyzer.GetProtectedPackages` | kernsweep/analyzer.py:223-244 | the image and header names of both kernels: 2 names when the kernels are equal, 4 otherwise |
| `Analyzer.PrefixedNamesDistinct` | kernsweep/analyzer.py:237-242 | image and header names never collide and each determines its version |
| `Remover.RemovalStatus.Value` | kernsweep/remover.py:13-17 | each status has a non-empty value |
| `Remover.AllSucceeded` | kernsweep/remover.py:57 | one `(pkg, SUCCESS)` pair per package, in order |
| `Remover.AllSucceededNames` | kernsweep/remover.py:57 | the success list names exactly the packages, in order |
| `Remover.ExecuteAptRemoval` | kernsweep/remover.py:49-66 | success exactly for exit code 0, with every package succeeded; a RuntimeError naming a non-zero exit code or the `SubprocessError`; an `OSError` from starting apt-get passes through unwrapped |
| `Remover.ExitCodeMessage` | kernsweep/remover.py:60-62 | the non-zero exit refusal text; `ExitCodeMessageInjective` proves the code can be read back from it |
| `Remover.LaunchFailedMessage` | kernsweep/remover.py:66 | the `SubprocessError` refusal text, prefixed to the error's own text |
| `Remover.ExitCodeMessageInjective` | kernsweep/remover.py:60-62 | the exit code can be read back from the failure message |
| `Remover.GenerateAptCommand` | kernsweep/remover.py:102-125 | an error exactly for no packages; otherwise the five fixed tokens followed by the packages, in order |
| `Remover.RemovePackages` | kernsweep/remover.py:69-99 | empty input gives `[]`; a dry run reports every package succeeded before any privilege check; without root a PermissionError; otherwise the removal on the generated command |

## Left out

- Running `uname` and `dpkg` (detector.py), `os.geteuid()` and `subprocess.run` (remover.py):
  these are I/O. The privilege check and apt-get's outcome are parameters; the output apt-get
  prints is not modelled.
- The command-line front end, the report printer, the utilities, the Ansible module plumbing and
  the packaging files: orchestration and console output, not decisions.
- `\d` in `compare_kernel_versions` matches every Unicode decimal digit in Python; the model
  reads it as ASCII `0`..`9`.
- `KernelInfo.version` and `KernelInfo.packageName` are `const`: the core never reassigns them,
  and only the two flags are mutable fields.
- `Analyzer.LatestIsNewest`: proved only when every version has the numeric prefix; with mixed
  numeric and textual versions the comparison is not transitive (`Version.MixedVersionsCycle`),
  and only `Analyzer.LaterNotNewer` holds.
- `Remover.GenerateAptCommand`: the argument list is a value here, so "the input list is not
  modified" holds by construction rather than being stated.
