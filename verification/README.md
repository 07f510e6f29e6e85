# bib-unifier merge core, modelled in Dafny

bib-unifier reads every `.bib` file of a directory and merges them into one
bibliography without repeated entries. This project models the merge and the
file filter:

- `biblatex.dfy` (module `Biblatex`): entries, and the bibliography that the
  merge updates in place. A bibliography is a class holding an ordered
  sequence of entries whose citation keys are unique. `get`, `insert` and
  `remove` act by key. These are the operations of the `biblatex` crate that
  the merge relies on, with the semantics this model assumes for them.
- `compare.dfy` (module `Compare`): `compare_entries`, which decides whether
  two entries are the same publication (equal DOI, equal title, or titles
  whose similarity score reaches the threshold), and `decide_which_to_keep`,
  which settles a matching pair. In silent mode the kept entry wins, and an
  identical pair also keeps the kept entry. Otherwise the user is asked to
  choose: keep the first, keep the second, or keep both.
- `key_allocation.dfy` (module `KeyAllocation`): `get_new_citation_key`,
  which probes `key_1`, `key_2`, … and returns the first one that is free.
- `unify.dfy` (module `Unify`):
  - `add_entry_to_bibliography`: add an entry, renamed if its key is taken.
  - `add_bibliography_to_unified`: scan the kept entries in order until the
    first verdict that is not "keep both", then drop the incoming entry, or
    replace the matched entry with it, or add it. Repetitions are counted.
  - `unify_bibliography`: fold every input bibliography into a fresh one.
- `parsing.dfy` (module `Parsing`): `include_path`, which reads a file when
  its extension is `bib` and its name does not start with `[bib_unifier]`.

The imperative code is modelled imperatively:

- The bibliography is a `Bibliography` object with a `seq<Entry>` field.
- The merge and the key probe are methods with loops, and the entry
  insertion is a method that calls them.
- Each method is proved against a specification function: `Step`, `AddAll`,
  `Unified`, `AddEntry` and `FirstFreeSuffix`.

The comparison and `include_path` are pure functions.

Some inputs from outside the merge are parameters:

- The similarity score that the `strsim` crate computes is a `Scorer`
  parameter, and the threshold is a real number.
- The user at the terminal is a `Prompt` parameter. It maps the pair shown to
  an answer of 1, 2 or 3, which is what the prompt accepts.

The code as written differs from what one might expect, and the model follows the code:

- There is no rule that calls two entries with the same citation key
  duplicates. Only DOI and title are compared (`Compare.SameKeyAloneKeepsBoth`).
- Equality of two entries is not checked before the other rules. It is only
  checked inside `decide_which_to_keep`, after a DOI or title match. So two
  identical entries with neither DOI nor title are both kept, the second one
  as `key_1` (`Unify.IdenticalWithoutDoiOrTitleKeptTwice`).
- `unify_bibliography` returns only the bibliography and prints the number
  of repetitions. The model returns that number as a second result.
- The key probe is meant to have no upper bound, but the code counts with a
  `u8`. See Findings.

## Model

| member | source | states |
|---|---|---|
| Biblatex.Lookup | src/unify.rs:164 | the entry stored under a key exists exactly when the key is present, and carries that key |
| Biblatex.InsertEntry | src/unify.rs:169 | a new key is appended at the end; a present key has its entry replaced at the same index, every other entry unchanged; the key set gains the key; unique keys are preserved |
| Biblatex.RemoveKey | src/unify.rs:65 | an absent key changes nothing; a present key removes the entry at its index, the others keeping their order; every remaining entry was there before; the key set loses the key; unique keys are preserved |
| Biblatex.Bibliography.constructor | src/unify.rs:11 | `Bibliography::new` is empty and valid |
| Biblatex.Bibliography.Get | src/unify.rs:164 | the lookup loop returns exactly `Lookup` of the current entries |
| Biblatex.Bibliography.Insert | src/unify.rs:169 | the new entries are `InsertEntry` of the old ones, and unique keys are kept |
| Biblatex.Bibliography.Remove | src/unify.rs:65 | the new entries are `RemoveKey` of the old ones, and unique keys are kept |
| KeyAllocation.NatToString | src/unify.rs:177 | the decimal rendering of the counter is non-empty, made of digits only, and starts with `0` only for zero |
| KeyAllocation.NatToStringRoundTrip | src/unify.rs:177 | reading the rendered digits back gives the counter |
| KeyAllocation.Suffixed | src/unify.rs:177 | a candidate key is the old key, then `_`, then the counter's digits |
| KeyAllocation.SuffixedInjective | src/unify.rs:175-180 | different counters give different candidate keys, so the probe never tries a key twice |
| KeyAllocation.ProbeFrom | src/unify.rs:175-184 | the probe from `n` ends at a free `base_r` with `r >= n`, and every `base_m` with `n <= m < r` is taken |
| KeyAllocation.FirstFreeSuffix | src/unify.rs:174-184 | the least `n >= 1` whose `base_n` is free: that key is free and every smaller suffix from 1 is taken |
| KeyAllocation.TakenSuffixBounded | src/unify.rs:177-180 | a taken probe has a suffix below 10 to the power of the longest key length, so the unbounded probe ends |
| KeyAllocation.GetNewCitationKey | src/unify.rs:173-185 | the probe loop returns `base_n` for the first free n; the key is free and extends the old key |
| KeyAllocation.ProbeFromU8 | src/unify.rs:174-180 | with an 8-bit counter from `n`: the unbounded probe's key when one of `base_n`..`base_255` is free, an overflow exactly when all of them are taken |
| KeyAllocation.NewCitationKeyU8 | src/unify.rs:173-185 | `get_new_citation_key` as written: it agrees with the unbounded probe unless all of `key_1`..`key_255` are taken, when it overflows |
| KeyAllocation.U8CounterOverflows | src/unify.rs:174-180 | a bibliography holding `key` and `key_1`..`key_255` makes the 8-bit counter overflow, although `key_n` for some n > 255 is free |
| KeyAllocation.CarnapKeys | src/unify.rs:257-277 | with `Carnap1942` taken the new key is `Carnap1942_1`; with `Carnap1942_1` taken too it is `Carnap1942_2` |
| Compare.SimilarityMonotone | src/unify.rs:115-124 | `test_title_similarity` compares the score with the threshold: titles similar at a threshold are similar at every lower one |
| Compare.DecideWhichToKeep | src/unify.rs:128-158 | keep the kept entry exactly when silent, identical, or answer 1; keep the new entry exactly on answer 2 otherwise; keep both exactly on answer 3 otherwise |
| Compare.CompareEntries | src/unify.rs:84-113 | a pair with equal DOIs, equal titles, or (threshold below 1) similar titles goes to `decide_which_to_keep`; every other pair, in particular one without a DOI pair and a title pair, is kept |
| Compare.Matches | src/unify.rs:86-110 | the rules of `compare_entries` that lead to resolution: a match needs a DOI pair or a title pair; an identical entry with a DOI or a title always matches; at threshold 1 or more, different DOIs and different titles never match |
| Compare.DifferentDoisDoNotBlockTitles | src/unify.rs:86-104 | two different DOIs do not stop an equal-title match |
| Compare.ThresholdOneIgnoresScorer | src/unify.rs:105-107 | at threshold 1 or more the similarity score is never used: any two scorers give the same verdict |
| Compare.RaisingThresholdOnlyKeepsBoth | src/unify.rs:105-124 | raising the threshold either leaves a verdict unchanged or turns it into keep-both |
| Compare.SimilarTitlesAtTwoThresholds | src/unify.rs:231-254 | a pair scoring between 0.7 and 0.99 is a repetition at threshold 0.7 and kept twice at 0.99 |
| Compare.SameKeyAloneKeepsBoth | src/unify.rs:84-113 | no rule reads the citation key: two entries match with any keys exactly when they match with their own, so a same-key pair that does not otherwise match is kept twice |
| Unify.AddEntry | src/unify.rs:161-170 | the entry is appended, unchanged but for its key; the key is kept exactly when it was free, and otherwise it is the first free `key_n`; unique keys are preserved |
| Unify.FirstMatch | src/unify.rs:39-60 | the scan stops at the first kept entry whose verdict is not keep-both, or at the end |
| Unify.Step | src/unify.rs:34-70 | one incoming entry, by the verdict at the first match: with no match the kept entries stay in place and the entry is appended through `AddEntry`, under its own key when free, otherwise the first free `key_n`, with no repetition; on keep-prev the bibliography is unchanged and one repetition counted; on keep-entry (unique keys) the matched entry is removed, the others keep their order, the entry is appended through `AddEntry` to what remains (own key when free, otherwise the first free `key_n`), and one repetition counted; keys stay unique and size plus repetitions grows by one |
| Unify.AddAll | src/unify.rs:25-73 | at most one repetition per entry added; entries after plus repetitions equals entries before plus entries added; keys stay unique |
| Unify.UnifyFrom | src/unify.rs:13-16 | folding the bibliographies counts at most one repetition per input entry, keeps keys unique, and size plus repetitions grows by the total number of input entries |
| Unify.Unified | src/unify.rs:9-22 | the unified bibliography has unique keys, and its size plus the repetitions is the total number of input entries |
| Unify.UnifyAppend | src/unify.rs:13-16 | folding one more bibliography is one more `add_bibliography_to_unified` on the result, with the counts added |
| Unify.KeepEntrySameKeyNotRenamed | src/unify.rs:62-69 | keeping the new entry over a kept entry with the same key removes the old one first, so the new entry keeps its key |
| Unify.SilentStep | src/unify.rs:39-49 | in silent mode an entry matching some kept entry is dropped and counted; one matching none is added |
| Unify.SilentKeepsPrefix | src/unify.rs:33-71 | in silent mode no kept entry is removed or moved: the old bibliography is a prefix of the new one |
| Unify.SilentReAddMatched | src/unify.rs:33-72 | in silent mode, entries that each match a kept entry change nothing and are all counted |
| Unify.SilentReAddKept | src/unify.rs:292-296 | in silent mode, re-adding kept entries that have a DOI or a title changes nothing and counts each one |
| Unify.SilentCovers | src/unify.rs:33-71 | in silent mode every added entry with a DOI or a title is matched by some entry of the result |
| Unify.SilentReAddIsRepetition | src/unify.rs:292-296 | in silent mode, adding the same entries twice leaves the first result unchanged and counts every entry the second time |
| Unify.IdenticalWithoutDoiOrTitleKeptTwice | src/unify.rs:84-113 | an entry identical to a kept one but with no DOI and no title is added again as `key_1` |
| Unify.AddEntryToBibliography | src/unify.rs:161-170 | the bibliography becomes `AddEntry` of the old one and keeps unique keys |
| Unify.MergeEntry | src/unify.rs:34-70 | the scan, removal and insertion for one entry give exactly the result and count of `Step` |
| Unify.AddBibliographyToUnified | src/unify.rs:25-73 | the bibliography and count are exactly `AddAll` of the old bibliography; size plus count grows by the entries added; keys stay unique |
| Unify.UnifyBibliography | src/unify.rs:9-22 | a fresh bibliography with unique keys equal to `Unified` of the inputs; its size plus the repetitions is the total number of input entries |
| Parsing.AfterLast | src/parsing.rs:23-26 | the last component is a suffix holding no separator, preceded by a separator unless it is the whole string |
| Parsing.FileName | src/parsing.rs:26 | `Path::file_name`: the last component, a separator-free suffix of the path that follows a separator or starts the path; absent exactly when that component is empty, `.` or `..`, so only when the path is empty or ends with `/` or `.` |
| Parsing.NameExtension | src/parsing.rs:23 | the extension of a file name: the name ends with `.` and the extension, which has no `.`, after a non-empty stem; absent exactly when the name has no `.` after its first character |
| Parsing.Extension | src/parsing.rs:23 | `Path::extension`: absent without a file name; otherwise the file name ends with `.` and the extension after a non-empty stem; absent exactly when the file name has no `.` after its first character |
| Parsing.LastComponent | src/parsing.rs:23-26 | the file name and the extension of a path are those of its last component; without a file name that component has at most two characters |
| Parsing.BibExtension | src/parsing.rs:23 | a file name has the extension `bib` exactly when it ends with `.bib` after at least one other character |
| Parsing.IncludePath | src/parsing.rs:21-33 | a path is read exactly when its last component ends with `.bib` after another character and does not start with `[bib_unifier]` |
| Parsing.IncludePathInDirectory | src/parsing.rs:21-33 | for `dir/name` only the name decides, whatever the directory is called |
| Parsing.IncludePathTestBib | src/parsing.rs:79-81 | `test1.bib` is read, in any directory |
| Parsing.IncludePathTestTxt | src/parsing.rs:82-84 | `test1.txt` is not read, in any directory |
| Parsing.IncludePathUpperCase | src/parsing.rs:23 | `x.BIB` is not read: the extension is compared case-sensitively |
| Parsing.IncludePathBareExtension | src/parsing.rs:23 | `.bib` is not read: a name whose only `.` is its first character has no extension |
| Parsing.OutputNeverIncluded | src/parsing.rs:26-28 | a file whose name starts with `[bib_unifier]`, like the default output written by src/lib.rs:131, is never read back |

## Left out

- Similarity algorithms: the `strsim` functions and `f64` arithmetic are not modelled. The score is the `Scorer` parameter, and the threshold and score are exact reals.
- Terminal I/O: the prompt and its re-prompt loop, the `println!` messages and the rendering of entries as BibTeX are left out. The user is a function of the pair shown, so the model does not capture a user who answers the same pair differently at two prompts.
- Parsing and entry fields: `Bibliography::parse`, the chunk representation of fields and `format_verbatim` belong to the `biblatex` crate and are not modelled. An entry's title is held already formatted, and the other fields are an opaque map compared by equality. So two entries whose titles differ only in their chunks but format to the same text (`{Title}` against `Title`) are equal in the model, and `decide_which_to_keep` keeps the first without asking, where the source compares the chunks and asks the user.
- biblatex internals: the crate's own code is not part of this model. `Get`, `Insert` and `Remove` state the behaviour the merge assumes of it. An insert under a present key replaces the entry in place, but the merge never does that.
- Driver and command line: `run`, the clap `Config` with `validate_threshold` and `validate_output`, the writing of the output file, and src/main.rs are left out. They are file and command-line handling around the merge. The threshold is not required to lie in [0, 1], because the merge does not depend on that.
- File listing and reading: `get_filepaths`, `get_files` and `get_bibliographies` in src/parsing.rs are directory and file I/O. The list of bibliographies is the input of `Unify.UnifyBibliography`.
- Paths: a path is modelled as a `/`-separated string. Rust's path normalisation (trailing `/`, `.` components) and names that are not valid UTF-8 are not modelled.
- Unify.AddEntry: a taken key is renamed with the unbounded `FirstFreeSuffix`, and so is every member built on it: `Step`, `AddAll`, `Unified`, `MergeEntry`, `AddBibliographyToUnified` and `UnifyBibliography`. When `key_1` … `key_255` are all taken, the modelled merge appends `key_256`, while the source panics in a debug build or probes `key_0` in a release build (see Findings).
- Unify.AddBibliographyToUnified: the `i32` repetition counter is unbounded here. Its overflow after 2^31 - 1 repetitions is not modelled.
- Unify.UnifyBibliography: the repetition count is returned beside the bibliography instead of being printed.

## Findings

| source | as written | input that shows it | evidently intended | confidence | as-written member | corrected member |
|---|---|---|---|---|---|---|
| src/unify.rs:174-180 | `try_num` is a `u8`. After `key_255` is found taken, `try_num += 1` overflows: a debug build panics, and a release build wraps to 0 and probes `key_0` | a unified bibliography holding `key` and `key_1` … `key_255`, then an incoming entry with key `key` that matches none of them | probe `key_256`, `key_257`, … until one is free, with no upper bound | not executed | KeyAllocation.NewCitationKeyU8, KeyAllocation.U8CounterOverflows | KeyAllocation.GetNewCitationKey, KeyAllocation.FirstFreeSuffix |
