# version_ts core, modelled in Dafny

`version_ts` keeps a project's semantic version (`major.minor.patch`) in a
one-line TypeScript file, `version.ts`, reading `export const version =
"X.Y.Z";`. Its library module `mod.ts` parses and formats versions in the
strict normal form of Semantic Versioning 2.0.0 (section 2: non-negative
integers without leading zeros), bumps a component by the rules of sections
6 to 8 (raising a component resets the less significant ones to 0), encodes a
version into the `version.ts` text and decodes it back, reads the current
version from disk, checks that the git working tree is clean and tags the
current version.

The model, one module per component:

- `failures.dfy` (`Failures`): the errors the source throws, as a tagged
  `Error`, with `Result`, `Option` and `Outcome`.
- `decimal.dfy` (`Decimal`): canonical decimal numerals (`0|[1-9][0-9]*`),
  their value (`parseInt` on such text) and the rendering of a number.
- `fields.dfy` (`Fields`): splitting a string on one separator character,
  and joining the fields back. It serves both the dot-separated version text
  and the NUL-separated output of `git status -z`.
- `versions.dfy` (`Versions`): the `Version` triple, `StringToVersion` and
  `VersionToString`. The anchored regular expression is computed by splitting
  on `.` and checking that there are three canonical fields. The lemmas prove
  that this accepts exactly the pattern.
- `codec.dfy` (`Codec`): `VersionToTypeScript` and `TypeScriptToVersion`.
- `increment.dfy` (`Increment`): `IncrementVersion` as the source writes
  it. It copies the triple into a three-slot array, increments one slot in
  place and zeroes the later slots in a loop. It is proved equal to `Bump`,
  the per-component statement of the rule.
- `store.dfy` (`Store`): `GetCurrentVersion` over a read outcome
  (`NotFound`, `Failed(reason)`, `Contents(text)`), and `SaveVersion`, which
  returns the file write it would make.
- `git.dfy` (`Git`): `GetGitStatus` over the status output text,
  `EnsureClean`, and `TagVersion`. `TagVersion` returns the git commands it
  would run, in order, together with its outcome.

`ensureCleanAsync` (mod.ts:102-107) does no classification: every non-empty
record of `git status -z` counts, untracked (`??`) entries included. The code
also has no live commit operation; `commitVersionTSAsync` is commented out.
Tagging re-reads the version file rather than taking a version as a
parameter.

## Model

| member | source | states |
|---|---|---|
| Decimal.ToDecimal | mod.ts:26 | the rendering of a component is a canonical numeral (`0` or no leading zero) that denotes the component |
| Decimal.CanonicalRoundTrip | mod.ts:17-19 | a canonical numeral is the rendering of its own value, so `parseInt` on the matched text loses nothing |
| Fields.IndexOf | mod.ts:99 | the position found is the first separator, or the end when there is none |
| Fields.Split | mod.ts:99 | `split` yields at least one field and no field contains the separator |
| Fields.JoinSplit | mod.ts:99 | joining the fields of a split with the separator gives the input back |
| Fields.SplitJoin | mod.ts:99 | separator-free fields are recovered exactly by splitting their join |
| Versions.ParseAcceptsExactlyPattern | mod.ts:12-23 | `stringToVersion` succeeds iff the text is three dot-separated canonical numerals, and otherwise throws the invalid-version-string error naming the text |
| Versions.ParseFormat | mod.ts:12-27 | formatting never fails and parsing the formatted text gives the same version |
| Versions.FormatParse | mod.ts:12-27 | every accepted text is exactly the formatted version it parses to |
| Versions.FormatMatchesPattern | mod.ts:12-27 | every formatted version matches the version pattern |
| Versions.FormatInjective | mod.ts:25-27 | two versions have the same text iff they are equal |
| Versions.ParseRejectsNonDigitStart | mod.ts:12-23 | text starting with a non-digit (a `v` prefix, a sign) is rejected |
| Versions.ParseRejectsLeadingZero | mod.ts:12-23 | a first component with a leading zero is rejected |
| Versions.ParseExampleAccepted | mod.ts:12-21 | `1.2.3` parses to (1, 2, 3) |
| Versions.ParseExampleLeadingZero | mod.ts:12-23 | `1.02.3` is rejected |
| Versions.ParseExampleLeadingZeroPatch | mod.ts:12-23 | `1.2.03` is rejected |
| Versions.ParseExampleTooFew | mod.ts:12-23 | `1.2` is rejected |
| Versions.ParseExampleTooMany | mod.ts:12-23 | `1.2.3.4` is rejected |
| Versions.ParseExampleTrailingNewline | mod.ts:12-23 | `1.2.3` followed by a newline is rejected |
| Codec.DecodeEncode | mod.ts:29-40 | decoding the encoding of a version gives that version |
| Codec.DecodeExact | mod.ts:29-36 | any text the decoder accepts is, character for character, the encoding of the version it returns |
| Codec.DecodeRejects | mod.ts:29-36 | decoding fails iff the text is the encoding of no version, and the failure is the invalid-`version.ts` error naming the text |
| Codec.TrailingContentRejected | mod.ts:29-36 | any text after an encoding, a single newline included, makes it invalid |
| Codec.LeadingContentRejected | mod.ts:29-36 | any text before an encoding makes it invalid |
| Codec.DecodeExampleTrailingNewline | mod.ts:29-36 | the template followed by a newline is rejected |
| Codec.DecodeExampleBadQuotes | mod.ts:29-36 | single quotes instead of double quotes are rejected |
| Codec.DecodeExampleLeadingZero | mod.ts:29-36 | a correct template around a non-canonical version is rejected |
| Increment.ParseComponentNames | mod.ts:44-61 | the accepted component names are exactly `major`, `minor`, `patch`, and each names its own component |
| Increment.ComponentNameRoundTrip | mod.ts:2-6 | each component's key is accepted as that component |
| Increment.BumpRule | mod.ts:48-56 | the chosen component goes up by one, more significant ones are kept, less significant ones become 0 |
| Increment.BumpExamples | mod.ts:43-57 | (1,2,3) with minor gives (1,3,0); with major (2,0,0); (0,0,0) with patch gives (0,0,1) |
| Increment.IncrementVersion | mod.ts:43-62 | an unknown component name fails with the invalid-component error naming it; a known one gives the bumped version |
| Store.SaveVersion | mod.ts:81-83 | saving writes `version.ts`, and reading that text back gives the saved version |
| Store.GetCurrentVersionOutcomes | mod.ts:66-79 | absent iff the file is not found; other read errors pass through unchanged; malformed text is the invalid-`version.ts` error; a version is returned only for a file whose whole text is its encoding |
| Git.NonEmpty | mod.ts:99 | every record the filter keeps is non-empty and one of the input records |
| Git.NonEmptyCounts | mod.ts:99 | the filter keeps each non-empty record exactly as often as it occurs and drops every empty one |
| Git.NonEmptyAppend | mod.ts:99 | filtering a concatenation concatenates the filtered parts, so kept records stay in their input order |
| Git.NonEmptyKeepsRecords | mod.ts:99 | every non-empty record survives the filter |
| Git.StatusSkipsLeadingNul | mod.ts:97-100 | a leading NUL adds no status entry |
| Git.StatusOfLeadingRecord | mod.ts:97-100 | output starting with a character other than NUL yields at least one entry |
| Git.GetGitStatus | mod.ts:97-100 | no status entry is empty or contains a NUL |
| Git.StatusRecoversRecords | mod.ts:97-100 | NUL-terminated records as git writes them are recovered exactly and in order |
| Git.NoEntriesIffOnlySeparators | mod.ts:97-100 | the status list is empty iff the output holds nothing but NULs |
| Git.EnsureCleanIff | mod.ts:102-107 | the clean check passes iff the output holds no record; a failure carries the whole non-empty entry list |
| Git.UntrackedFileIsDirty | mod.ts:102-107 | an untracked file alone fails the clean check |
| Git.TagWithoutVersion | mod.ts:125-127 | without a version file tagging does nothing; a read error or malformed file stops it before any git command |
| Git.TagWithVersion | mod.ts:125-131 | with a version file the status is checked first; a dirty tree fails with its entries and no tag; a clean tree is tagged with the formatted version |
| Git.TagAfterSilentStatus | mod.ts:87-95 | with a version file, empty status output (what a failing `git status -z` prints) lets the tag command run, since no exit status is checked |
| Git.TagOnlyAfterCleanCheck | mod.ts:125-131 | a tag command only comes after a status command that found a clean tree, and it names the version the file encodes exactly; the tag name parses back to that version |

## Left out

- Version components are unbounded naturals. The source holds them in JS
  `number`s via `parseInt` and `++`, which lose precision above 2^53. Its
  template strings also render numbers of 10^21 and above in exponent form.
- File I/O (`Deno.readTextFile`, `Deno.writeTextFile`) is not modelled. A
  read is given by its outcome, and a save is returned as the write it would
  make.
- Running subprocesses and logging (`runCommandAndGetOutput`, mod.ts:87-95)
  are not modelled. The `git status -z` output is a parameter, and the
  commands are returned as values. `runCommandAndGetOutput` never checks a
  command's exit status, and the model matches that. A failing `git tag`
  (for example, for a tag that already exists) still counts as success. A
  failing `git status -z` (for example, outside a repository) prints
  nothing, so it passes the clean check and a tag is attempted
  (`Git.TagAfterSilentStatus`).
- `commitVersionTSAsync` (mod.ts:110-122) is left out because it is
  commented out and has no live behaviour.
- `main.ts`, the command-line shell, is not part of this model. It covers
  flag parsing, usage text and printing. It also imports `fileToString` and
  `stringToFile`, which `mod.ts` does not define.
- The async sequencing (`await`) becomes the order of the returned command
  list. Concurrent changes to the file or the working tree between steps are
  not modelled.
