# ncov-tools hand-off, modelled in Dafny

`scripts/ncov-tools.py` hands the results of a SIGNAL run to ncov-tools. Its
`set_up` step does six things:

- it settles which pangolin version to ask for;
- it empties ncov-tools' data directory for this run;
- it collects the negative-control sample ids from the sample table;
- it hard-links every sample's BAM, primer-trimmed BAM, variants and consensus
  files into the data directory under `{data_root}/{sample}{suffix}` names;
- it renames the FASTA headers of the consensus links after the sample;
- it writes `config.yaml`, one `key: value` line per setting.

With `freebayes_run`, `link_freebayes` links the FreeBayes outputs. At the first
sample that lacks a FreeBayes output, it falls back to `link_ivar(root, True)`.

The model works over an abstract filesystem. `FileStore.Snapshot` is a map from
each existing path to its text, plus a record of every hard link made (link
path to source). Python exceptions become a `Failure` beside the state reached
when the exception is raised:

- `FileNotFoundError`;
- `FileExistsError`;
- the `NameError` of the `replace` that `set_up` never defines.

Modules, following the script's structure:

- `Text`: `split(...)[0]` and `split(...)[-1]`, and lines as Python reads them.
- `Paths`:
  - the sample id;
  - `basename`;
  - link paths;
  - the FreeBayes output paths;
  - the data root and config path.
- `Fasta`: the `fileinput` header rewrite, exactly as written. Every line is
  printed with `end='\n'`, so each non-header line that ends in a line break
  gains an empty line after it; a last line without a line break only gets
  its line break.
- `Pangolin`: the version normalisation and the fallback to the latest
  release.
- `NegativeControls`: the sample-table scan, and `list(set)`.
- `Config`:
  - the ordered settings dictionary and dict assignment;
  - `repr` of the negative-control list;
  - serialisation.
- `FileStore`:
  - the abstract filesystem;
  - a `Disk` class holding it, whose methods make the script's filesystem
    calls, each proved against a specification function on snapshots.
- `Linking`:
  - `link_ivar` and `link_freebayes` as specification functions recursing
    over the inputs still to be processed;
  - methods whose loops are proved equal to those functions.
- `LinkingFacts`: what the linking passes guarantee and where they fail.
- `Setup`: `set_up` as a whole. This covers the BAM loops with the undefined
  `replace`, and `config.yaml` as written.

Facts about the script as written that the lemmas expose:

- Rewriting a consensus file twice adds blank lines again
  (`Fasta.RewriteTwiceGrows`).
- A sample called `S.mapped.primertrimmed.sorted` takes the BAM link path of
  sample `S`'s primer-trimmed BAM. `set_up` then raises `NameError`
  (`Setup.CollidingBamLinksRaise`).
- Suppose `link_freebayes` falls back in its variants loop, and a FreeBayes
  consensus file is also missing. Then the second `link_ivar(root, True)`
  always stops with `FileExistsError` (`LinkingFacts.FallbackTwiceFails`).
- Suppose every FreeBayes variants output exists and the first sample's FreeBayes
  consensus does too, but a later one is missing. Then the consensus loop has
  already made the first `.consensus.fasta` link, and its `link_ivar(root, True)`
  stops with `FileExistsError` (`LinkingFacts.LaterMissingConsensusFails`).
- Suppose every FreeBayes variants output exists but the first sample's FreeBayes
  consensus does not. Then the consensus loop falls back at once, and the run
  ends with the `.variants.vcf` links beside the `.variants.tsv` links and the
  iVar consensus copies (`LinkingFacts.LinkFreebayesConsensusFallback`).
- Suppose the variants loop falls back and every FreeBayes consensus exists.
  Then the consensus loop finds every `.consensus.fasta` already made by
  `link_ivar`. It never links a FreeBayes consensus, and it renames the headers
  of the iVar copy a second time (`LinkingFacts.LinkFreebayesVariantsFallback`).
- A `result_dir` given with a trailing `/` has an empty basename, so the data
  root is the `ncov-tools` directory itself. `set_up` then empties all of it,
  `config.yaml` included (`Setup.TrailingSlashClearsTools`).
- The fallback version is not checked against the supported ones
  (`Pangolin.FallbackNeedNotBeSupported`).

## Model

| member | source | states |
|---|---|---|
| Text.FirstField | scripts/ncov-tools.py:96 | `s.split(sep)[0]` is a prefix of `s` without `sep`, either the whole of `s` or followed by `sep` |
| Text.LastField | scripts/ncov-tools.py:80 | `s.split(sep)[-1]` is a suffix of `s` without `sep`, either the whole of `s` or preceded by `sep` |
| Text.FirstFieldOfSplit | scripts/ncov-tools.py:13 | the first field of `p + sep + rest` is `p` when `p` has no `sep` |
| Text.LastFieldOfSplit | scripts/ncov-tools.py:80 | the last field of `init + sep + p` is `p` when `p` has no `sep` |
| Text.SplitLines | scripts/ncov-tools.py:23 | the lines Python iterates over concatenate back to the text; each line but the last ends in its only line break |
| Text.SplitConcat | scripts/ncov-tools.py:95 | splitting the concatenation of well-formed lines gives those lines back |
| Text.SplitFirstLine | scripts/ncov-tools.py:94 | reading past a complete first line leaves the lines of the rest |
| Paths.Join | scripts/ncov-tools.py:38 | `os.path.join(a, b)` ends with `b`, and starts with `a` unless `b` is absolute |
| Paths.SampleName | scripts/ncov-tools.py:13 | the sample id has no `/` and is a prefix of the input path, either all of it or followed by `/` |
| Paths.SampleNameOfNested | scripts/ncov-tools.py:19 | the sample id of `sample/anything` is `sample` |
| Paths.Basename | scripts/ncov-tools.py:71 | the base name has no `/` and ends the path, either all of it or preceded by `/` |
| Paths.LinkPath | scripts/ncov-tools.py:14 | a link path starts with `root/` and is exactly as long as root, `/`, sample and suffix |
| Paths.LinkPathInjective | scripts/ncov-tools.py:128 | two samples with the same link path of one kind are the same sample |
| Paths.LinkKindsApart | scripts/ncov-tools.py:134 | link paths whose suffixes end in different characters differ |
| Paths.BamLinksCanCollide | scripts/ncov-tools.py:128-134 | the BAM link of sample `S.mapped.primertrimmed.sorted` is the primer-trimmed BAM link of sample `S` |
| Paths.FreebayesFile | scripts/ncov-tools.py:38 | the expected FreeBayes output is a non-empty relative path |
| Paths.FreebayesFileShape | scripts/ncov-tools.py:38 | that path is `sample/freebayes/sample+suffix` (or `freebayes/suffix` for an empty sample) |
| Paths.RelativeNotUnder | scripts/ncov-tools.py:39 | a relative path never lies inside an absolute directory |
| Paths.DataRoot | scripts/ncov-tools.py:71-84 | the data root lies under `exec_dir/ncov-tools`, never ends in `/` (as `abspath` leaves it), and is absolute when `exec_dir` is |
| Paths.DataRootName | scripts/ncov-tools.py:71-84 | the data directory is named after the result directory's basename, or is `exec_dir/ncov-tools` itself when that basename is empty |
| Paths.TrailingSlashRoot | scripts/ncov-tools.py:71-84 | a `result_dir` ending in `/` makes the data root `exec_dir/ncov-tools`, with `config.yaml` inside it |
| Paths.JoinName | scripts/ncov-tools.py:84 | joining a `/`-free name to a directory not ending in `/` puts one `/` between them, and the basename of the result is that name |
| Paths.SlashJoinName | scripts/ncov-tools.py:84 | joining a `/`-free name to a directory ending in `/` appends it, and the basename of the result is that name |
| Paths.ToolsDir | scripts/ncov-tools.py:84 | `os.path.join(exec_dir, 'ncov-tools')` extends `exec_dir` and is named `ncov-tools` |
| Paths.ConfigPath | scripts/ncov-tools.py:144 | the config path ends in `config.yaml` |
| Fasta.IsHeader | scripts/ncov-tools.py:24 | a line is a header exactly when it starts with `>` |
| Fasta.RewriteLine | scripts/ncov-tools.py:24-29 | every printed chunk ends in a line break |
| Fasta.RewriteLines | scripts/ncov-tools.py:23 | one printed chunk per input line |
| Fasta.RewriteText | scripts/ncov-tools.py:23-29 | the rewritten file's text: the printed chunks of its lines, in order (what a reader then sees is `RewriteTextLines`) |
| Fasta.RereadShape | scripts/ncov-tools.py:27-29 | one printed chunk, read again, is the lines of `Reread` (new header; line and an empty line; last line terminated) |
| Fasta.RereadAllShape | scripts/ncov-tools.py:23-29 | the printed chunks, read again, are the lines `RereadAll` gives, all terminated |
| Fasta.RewriteTextLines | scripts/ncov-tools.py:23-29 | reading a rewritten file gives, per input line, one `>sample` line for a header, or the line followed by an empty line |
| Fasta.RewriteIgnoresHeaderText | scripts/ncov-tools.py:24-27 | files that differ only in the text of header lines are rewritten to the same text |
| Fasta.RewriteOfLines | scripts/ncov-tools.py:23-29 | rewriting a text made of given lines prints one chunk per given line |
| Fasta.ExampleLines | scripts/ncov-tools.py:23-29 | `>h`, `ACGT` is rewritten to `>S1`, `ACGT`, an empty line |
| Fasta.RewriteTwiceGrows | scripts/ncov-tools.py:59-65 | rewriting again, as the FreeBayes pass does after the iVar pass, adds two more empty lines |
| Pangolin.Lower | scripts/ncov-tools.py:74 | `lower()` keeps the length and the dots, leaves no upper-case letter, keeps every other character and maps `A`-`Z` to the letter 32 code points on |
| Pangolin.TrimStart | scripts/ncov-tools.py:74 | the left half of `strip('v')` leaves a suffix that does not start with the character |
| Pangolin.TrimStartRemovesOnly | scripts/ncov-tools.py:74 | everything the left half of `strip('v')` removes is the character |
| Pangolin.TrimEnd | scripts/ncov-tools.py:74 | the right half of `strip('v')` leaves a prefix that does not end with the character |
| Pangolin.TrimEndRemovesOnly | scripts/ncov-tools.py:74 | everything the right half of `strip('v')` removes is the character |
| Pangolin.Normalise | scripts/ncov-tools.py:74 | a normalised version has no `.` or upper-case letter and does not start or end with `v` |
| Pangolin.Supported | scripts/ncov-tools.py:76 | the directly supported versions are `3` and `4` |
| Pangolin.ResolveVersion | scripts/ncov-tools.py:74-80 | a supported version (`3` or `4`) is kept; whatever is chosen has the normalised shape |
| Pangolin.NormaliseOf | scripts/ncov-tools.py:74 | the normalised version depends only on the text before the first `.` |
| Pangolin.NormalisePrefixedDigit | scripts/ncov-tools.py:74 | `v` or `V` followed by one digit, alone or before a `.`, normalises to that digit |
| Pangolin.NormalisePlainDigit | scripts/ncov-tools.py:74 | one digit, alone or before a `.`, normalises to itself |
| Pangolin.NormaliseExamples | scripts/ncov-tools.py:74 | `v4.1.2` and `V4` give `4`; `3.1.20` gives `3` |
| Pangolin.SupportedIgnoresUrl | scripts/ncov-tools.py:75-76 | with a supported version the release URL plays no part |
| Pangolin.UnsupportedFollowsUrl | scripts/ncov-tools.py:77-80 | otherwise the version is the normalised last segment of the release URL |
| Pangolin.NormaliseFallbackExamples | scripts/ncov-tools.py:80 | `2.1` gives `2`; `v5.0.1` gives `5` |
| Pangolin.FallbackNeedNotBeSupported | scripts/ncov-tools.py:79-80 | an unsupported `2.1` with a `v5.0.1` release resolves to `5`, which is not supported either |
| NegativeControls.StartsWithAny | scripts/ncov-tools.py:97 | `startswith` with a tuple: false for an empty tuple, true whenever the empty prefix is among them |
| NegativeControls.RowId | scripts/ncov-tools.py:96 | the row id has no comma and is a prefix of the row, either the whole row or followed by a comma |
| NegativeControls.DataRows | scripts/ncov-tools.py:94-95 | the data rows are all lines but the first: row `i` is line `i + 1` |
| NegativeControls.NegativeSet | scripts/ncov-tools.py:91-98 | every control found has no comma and starts with a configured prefix |
| NegativeControls.CollectNegatives | scripts/ncov-tools.py:92-98 | the loop collects exactly `NegativeSet` |
| NegativeControls.RowsMembership | scripts/ncov-tools.py:95-98 | an id is collected from the rows after the first iff it starts with a prefix and is the id of such a row |
| NegativeControls.NegativeSetMembership | scripts/ncov-tools.py:91-98 | an id is a control iff it starts with a prefix and is the id of some data row |
| NegativeControls.NoPrefixesNoControls | scripts/ncov-tools.py:97 | no prefixes, no controls |
| NegativeControls.HeaderIgnored | scripts/ncov-tools.py:94 | the header row never matters |
| NegativeControls.HeaderOnlyTable | scripts/ncov-tools.py:94-95 | a table with only a header row has no controls |
| NegativeControls.CommaFreeRowKeepsBreak | scripts/ncov-tools.py:96 | a row without a comma yields an id that keeps its line break |
| NegativeControls.ToList | scripts/ncov-tools.py:99 | `list(neg_samples)` holds each control exactly once |
| Config.Assign | scripts/ncov-tools.py:140 | assigning a present key keeps every key in place and changes only that key's value; a new key goes last |
| Config.AssignKeepsKeysDistinct | scripts/ncov-tools.py:140 | assignment keeps the keys distinct |
| Config.EscapeChar | scripts/ncov-tools.py:119 | an escaped character is non-empty and holds no line break |
| Config.Escape | scripts/ncov-tools.py:119 | an escaped string holds no line break |
| Config.UnescapeOne | scripts/ncov-tools.py:119 | reading back one escaped character gives that character |
| Config.UnescapeEscape | scripts/ncov-tools.py:119 | reading back an escaped string gives the string |
| Config.ReprStr | scripts/ncov-tools.py:119 | `repr` of a string holds no line break |
| Config.ReprRoundTrip | scripts/ncov-tools.py:119 | `repr` of a string can be read back to the string |
| Config.JoinReprs | scripts/ncov-tools.py:119 | the joined reprs of the list items hold no line break |
| Config.ReprList | scripts/ncov-tools.py:119 | `repr` of the control list holds no line break; the empty list is `[]` |
| Config.ConfigValues | scripts/ncov-tools.py:104-123 | one value per key |
| Config.BuildConfig | scripts/ncov-tools.py:104-123 | the dictionary has the 19 keys in their written order |
| Config.ConfigKeysDistinct | scripts/ncov-tools.py:104-123 | the 19 keys are distinct |
| Config.PatternText | scripts/ncov-tools.py:113-116 | a file-name pattern is `'{data_root}/{sample}` plus the suffix, quoted |
| Config.FreebayesConfig | scripts/ncov-tools.py:138-140 | with FreeBayes, only `variants_pattern` changes, to the `.variants.vcf` pattern, in its place |
| Config.PatternsMatchLinks | scripts/ncov-tools.py:113-116 | each file pattern names exactly the link paths made for that kind |
| Config.ConfigLine | scripts/ncov-tools.py:146 | a written line starts with the key and `: `, holds the value and ends in a line break |
| Config.ConfigLines | scripts/ncov-tools.py:145-146 | one written line per entry |
| Config.Serialise | scripts/ncov-tools.py:144-146 | the file text is the entries' lines in order (read back by `SerialiseLines`) |
| Config.SerialiseLines | scripts/ncov-tools.py:144-146 | with no line break in keys and values, the file reads back as exactly those lines |
| Config.ValuesSingleLine | scripts/ncov-tools.py:104-123 | no value holds a line break when the given settings hold none |
| Config.BuiltConfigSingleLine | scripts/ncov-tools.py:104-140 | both dictionaries then fit one entry per line |
| FileStore.LinkSpec | scripts/ncov-tools.py:16 | `os.link` fails on a missing source, then on an existing target; otherwise it adds only the target, with the source's text, and records the link |
| FileStore.RewriteSpec | scripts/ncov-tools.py:23-29 | an in-place rewrite of a missing file fails; otherwise only that file's text changes, to the rewritten text |
| FileStore.ClearSpec | scripts/ncov-tools.py:85-87 | after recreating the data directory nothing is inside it and everything outside is unchanged |
| FileStore.WriteSpec | scripts/ncov-tools.py:144-146 | writing a file sets its text and changes nothing else |
| FileStore.Disk.Exists | scripts/ncov-tools.py:15 | `os.path.exists` holds exactly for existing paths |
| FileStore.Disk.Link | scripts/ncov-tools.py:16 | `os.link` on the disk does what `LinkSpec` says |
| FileStore.RenderRewrite | scripts/ncov-tools.py:23-29 | the printing loop, one chunk per input line in order, yields `RewriteText` of the file's text |
| FileStore.Disk.RewriteHeaders | scripts/ncov-tools.py:23-29 | the in-place rewrite replaces the file's text as `RewriteSpec` gives and fails only on a missing file |
| FileStore.Disk.Clear | scripts/ncov-tools.py:85-87 | as `ClearSpec` |
| FileStore.Disk.Create | scripts/ncov-tools.py:144 | opening for writing leaves an empty file |
| FileStore.Disk.Append | scripts/ncov-tools.py:146 | a write appends to the file's text |
| FileStore.Disk.Read | scripts/ncov-tools.py:93 | opening a missing file fails; otherwise its text is returned |
| Linking.LinkTarget | scripts/ncov-tools.py:13-14 | a link path lies inside the root |
| Linking.TargetsAt | scripts/ncov-tools.py:12-14 | the link paths of a pass are exactly those of its inputs |
| Linking.LinkUnlessPresent | scripts/ncov-tools.py:15-16 | only the target may be added; an existing target is left alone without `replace`, refused with `replace=True`, and a `NameError` when `replace` is undefined |
| Linking.LinkPass | scripts/ncov-tools.py:12-16 | a link loop keeps every file's text and adds only its own link paths |
| Linking.ConsensusStep | scripts/ncov-tools.py:19-29 | only the sample's consensus link changes: it holds the rewritten text of the existing link, or of the input when newly made |
| Linking.ConsensusPass | scripts/ncov-tools.py:18-29 | the consensus loop changes only its own link paths |
| Linking.LinkIvar | scripts/ncov-tools.py:9-29 | link_ivar adds only paths inside the root and changes only consensus link paths, so nothing outside the root |
| Linking.FreebayesOutput | scripts/ncov-tools.py:38 | the expected FreeBayes output path is relative |
| Linking.FbVariantsPass | scripts/ncov-tools.py:36-46 | the FreeBayes variants loop adds only paths inside the root, keeps every file and changes nothing outside the root; what it links is `FbVariantsPassContents` |
| Linking.FbConsensusPass | scripts/ncov-tools.py:48-65 | the same for the FreeBayes consensus loop; `FbConsensusIsRef` gives it as the turns before the first missing FreeBayes consensus followed by the fallback |
| Linking.LinkFreebayes | scripts/ncov-tools.py:33-65 | link_freebayes keeps every file, adds only inside the root, changes nothing outside it and never raises `NameError`; what it links is `LinkFreebayesContents` with no fallback, `LinkFreebayesConsensusFallback` and `LinkFreebayesVariantsFallback` with one |
| Linking.LinkUnlessPresentOn | scripts/ncov-tools.py:15-16 | the conditional link on the disk is `LinkUnlessPresent` |
| Linking.LinkPassOn | scripts/ncov-tools.py:12-16 | the link loop on the disk is `LinkPass` |
| Linking.ConsensusStepOn | scripts/ncov-tools.py:19-29 | one consensus turn on the disk is `ConsensusStep` |
| Linking.ConsensusPassOn | scripts/ncov-tools.py:18-29 | the consensus loop on the disk is `ConsensusPass` |
| Linking.LinkIvarOn | scripts/ncov-tools.py:9-29 | link_ivar on the disk is `LinkIvar` |
| Linking.FbVariantsOn | scripts/ncov-tools.py:36-46 | the FreeBayes variants loop, with its `break`, on the disk is `FbVariantsPass` |
| Linking.FbConsensusOn | scripts/ncov-tools.py:48-65 | the FreeBayes consensus loop on the disk, with its `break`, is `FbConsensusPass`: by `FbConsensusIsRef`, the turns before the first missing FreeBayes consensus (whose links `FbConsensusLinksPrefix` gives), then `link_ivar(root, True)` if one is missing |
| Linking.LinkFreebayesOn | scripts/ncov-tools.py:33-65 | link_freebayes on the disk is `LinkFreebayes`: its links with no fallback are `LinkFreebayesContents`, with a fallback in either loop `LinkFreebayesConsensusFallback` and `LinkFreebayesVariantsFallback`, and its failures `FallbackTwiceFails` and `LaterMissingConsensusFails` |
| LinkingFacts.LinkPassLinksAll | scripts/ncov-tools.py:12-16 | after a successful link loop every input's link path exists |
| LinkingFacts.LinkPassFailure | scripts/ncov-tools.py:15-16 | with present inputs, a link loop fails only on an existing target: `FileExistsError` with `replace=True`, `NameError` with `replace` undefined, never without `replace` |
| LinkingFacts.ConsensusPassFailure | scripts/ncov-tools.py:21-22 | the same for the consensus loop |
| LinkingFacts.LinkIvarFailure | scripts/ncov-tools.py:9-29 | the same for link_ivar |
| LinkingFacts.LinkIvarLinksVariants | scripts/ncov-tools.py:12-16 | after a successful link_ivar every variants link path exists |
| LinkingFacts.UndefinedReplacePass | scripts/ncov-tools.py:129-130 | a loop with `replace` undefined succeeds iff its link paths are free and no sample repeats; otherwise it raises `NameError` |
| LinkingFacts.RelativeStaysMissing | scripts/ncov-tools.py:39 | linking into an absolute root never creates a missing FreeBayes output |
| LinkingFacts.FirstMissingSpec | scripts/ncov-tools.py:36-42 | the first input without its FreeBayes output: every earlier one has it and that one lacks it |
| LinkingFacts.FirstMissingStable | scripts/ncov-tools.py:41-46 | linking into an absolute root does not move the first missing FreeBayes output |
| LinkingFacts.FbVariantsIsRef | scripts/ncov-tools.py:36-46 | the FreeBayes variants loop equals linking every input before the first missing one, then `link_ivar(root, True)` if one is missing |
| LinkingFacts.VcfLinkPassLinksAll | scripts/ncov-tools.py:44-46 | linking inputs whose FreeBayes outputs exist succeeds and makes each `.variants.vcf` link |
| LinkingFacts.RefLinksPrefix | scripts/ncov-tools.py:36-46 | the reference loop links every input before the first missing output, and succeeds when none is missing |
| LinkingFacts.FbVariantsLinksPrefix | scripts/ncov-tools.py:36-46 | each input before the first missing FreeBayes output gets its `.variants.vcf` link, links made stay, and the loop succeeds when none is missing |
| LinkingFacts.IvarRefusesConsensus | scripts/ncov-tools.py:18-22 | over present inputs, `link_ivar(root, True)` fails with `FileExistsError` when the first consensus link path is taken |
| LinkingFacts.IvarRefusesFails | scripts/ncov-tools.py:9-22 | so it fails that way whenever the first variants link path or, with all inputs present, the first consensus link path is taken |
| LinkingFacts.FbConsensusFallbackFails | scripts/ncov-tools.py:48-54 | once `link_ivar(root, True)` is bound to be refused, a consensus loop that meets a missing FreeBayes consensus fails with `FileExistsError` |
| LinkingFacts.FallbackTwiceFails | scripts/ncov-tools.py:33-58 | link_freebayes fails with `FileExistsError` when a FreeBayes variants output and a FreeBayes consensus output are both missing |
| LinkingFacts.FirstFallback | scripts/ncov-tools.py:39-42 | a missing FreeBayes variants output makes the loop a `link_ivar(root, True)` from some state where all inputs are still present |
| LinkingFacts.LinkPassContents | scripts/ncov-tools.py:12-16 | a link loop over present inputs with free, distinct link paths succeeds; each link path holds its input's text and is recorded as a link to it |
| LinkingFacts.ConsensusPassContents | scripts/ncov-tools.py:18-29 | the consensus loop then succeeds too; each link holds its input's text with the headers renamed, and the inputs keep their text |
| LinkingFacts.LinkIvarContents | scripts/ncov-tools.py:9-29 | link_ivar into free link paths with no repeated sample succeeds; it links every variants file and copies every consensus file with its headers renamed |
| LinkingFacts.ConsensusPassReplaceGrows | scripts/ncov-tools.py:18-29 | with `replace=True` the consensus loop changes the text of no existing file |
| LinkingFacts.IvarReplaceGrows | scripts/ncov-tools.py:9-29 | so `link_ivar(root, True)` changes no existing file |
| LinkingFacts.FirstMissingAll | scripts/ncov-tools.py:36-39 | with every FreeBayes output present, none is missing |
| LinkingFacts.FbVariantsNoFallback | scripts/ncov-tools.py:36-46 | with every FreeBayes variants output present, the variants loop never falls back and succeeds |
| LinkingFacts.FbVariantsPassContents | scripts/ncov-tools.py:36-46 | it then links each input's FreeBayes variants as its `.variants.vcf` (same text, recorded link), adds nothing else and changes no file |
| LinkingFacts.FbConsensusStepFresh | scripts/ncov-tools.py:49-65 | a consensus turn on a free link path adds only that path, holding the FreeBayes consensus with renamed headers |
| LinkingFacts.FbConsensusLinksPrefix | scripts/ncov-tools.py:48-65 | each input before the first missing FreeBayes consensus gets a `.consensus.fasta` holding that consensus with renamed headers, existing files keep their text, and the loop succeeds when none is missing |
| LinkingFacts.FbConsensusRest | scripts/ncov-tools.py:48-65 | the inductive step of that: one fresh turn, then the rest of the loop |
| LinkingFacts.LinkFreebayesContents | scripts/ncov-tools.py:33-65 | with every FreeBayes output present and free, distinct link paths, link_freebayes succeeds, links every variants output and copies every consensus output with renamed headers |
| LinkingFacts.LaterMissingConsensusPassFails | scripts/ncov-tools.py:48-58 | over present inputs, a consensus loop whose first FreeBayes consensus exists but a later one is missing fails with `FileExistsError` |
| LinkingFacts.MissingAfterFirstFails | scripts/ncov-tools.py:48-54 | the rest of that loop, once the first `.consensus.fasta` link exists, fails that way |
| LinkingFacts.LaterMissingConsensusFails | scripts/ncov-tools.py:33-58 | so link_freebayes with all variants outputs present fails with `FileExistsError` when a later FreeBayes consensus is missing |
| LinkingFacts.FbConsensusRefStep | scripts/ncov-tools.py:48-65 | a consensus turn on an input with its FreeBayes consensus is the same step of the loop and of its reference |
| LinkingFacts.FbConsensusIsRef | scripts/ncov-tools.py:48-65 | the consensus loop equals the turns (link unless present, then rename the headers) over the inputs before the first one without its FreeBayes consensus, followed by `link_ivar(root, True)` when there is one |
| LinkingFacts.LinkFreebayesConsensusFallback | scripts/ncov-tools.py:10-54 | with every FreeBayes variants output present and the first FreeBayes consensus missing, link_freebayes succeeds with every `.variants.vcf` link, every `.variants.tsv` link and every iVar consensus copy with renamed headers, and every file that was there keeps its text |
| LinkingFacts.FbConsensusRewriteStep | scripts/ncov-tools.py:56-65 | a consensus turn on an existing link path only renames its headers |
| LinkingFacts.FbConsensusRewritesAgain | scripts/ncov-tools.py:48-65 | with every FreeBayes consensus and every `.consensus.fasta` present, the consensus loop links nothing, keeps every other file and renames each link path's headers once more |
| LinkingFacts.RewrittenAgainCons | scripts/ncov-tools.py:48-65 | the inductive step of that |
| LinkingFacts.VariantsFallbackState | scripts/ncov-tools.py:10-46 | a variants loop that falls back leaves the `.variants.vcf` links of the inputs before the first missing one and everything `link_ivar(root, True)` adds |
| LinkingFacts.LinkFreebayesVariantsFallback | scripts/ncov-tools.py:33-65 | when the variants loop falls back and every FreeBayes consensus is present, link_freebayes succeeds; each `.consensus.fasta` holds the iVar consensus with its headers renamed twice, so no FreeBayes consensus is linked, and every file that was there keeps its text |
| Setup.ConfigOf | scripts/ncov-tools.py:138-142 | the written dictionary has the 19 keys in their fixed order |
| Setup.LinkAll | scripts/ncov-tools.py:125-142 | the linking part of set_up keeps every file, adds only inside the data root and changes nothing outside it |
| Setup.SetUpSpec | scripts/ncov-tools.py:67-148 | set_up fails with `FileNotFoundError` when the sample table is missing or inside the cleared data root; it changes no file outside the data root but `config.yaml`, which a success leaves in place |
| Setup.WriteConfig | scripts/ncov-tools.py:144-146 | writing the config line by line leaves the serialised dictionary |
| Setup.SetUp | scripts/ncov-tools.py:67-148 | set_up on the disk is `SetUpSpec`; the negative-control list holds each control of the sample table once |
| Setup.ConfigFileLines | scripts/ncov-tools.py:138-146 | the config file reads back as one `key: value` line per key, in order, with the `.variants.vcf` pattern exactly when FreeBayes runs |
| Setup.SetUpWritesConfig | scripts/ncov-tools.py:144-146 | a successful set_up leaves `config.yaml` holding the serialised dictionary |
| Setup.TrimmedTargetsFree | scripts/ncov-tools.py:132-136 | after the BAM loop a primer-trimmed link path is taken iff it is a BAM link path |
| Setup.LinkAllUndefinedReplace | scripts/ncov-tools.py:125-136 | on an emptied data root the BAM loops raise `NameError` iff two of their link paths coincide |
| Setup.TrailingSlashClearsTools | scripts/ncov-tools.py:71-87 | with a `result_dir` ending in `/`, set_up's `rmtree` removes every file under `exec_dir/ncov-tools`, `config.yaml` included |
| Setup.SetUpFailure | scripts/ncov-tools.py:84-142 | set_up fails with `FileNotFoundError` when the sample table is missing, and otherwise exactly as its linking part does |
| Setup.SetUpUndefinedReplace | scripts/ncov-tools.py:84-136 | set_up raises `NameError` iff the sample table exists and two BAM link paths coincide |
| Setup.IvarLinkAllSucceeds | scripts/ncov-tools.py:125-142 | without FreeBayes, on an emptied data root with every input present, linking succeeds iff the BAM link paths are apart |
| Setup.IvarSetUpSucceeds | scripts/ncov-tools.py:67-148 | without FreeBayes and with available inputs, set_up succeeds iff the sample table exists and the BAM link paths are apart |
| Setup.BamLinksCollide | scripts/ncov-tools.py:127-134 | the BAM of `S.mapped.primertrimmed.sorted/...` and the primer-trimmed BAM of `S/...` share a link path |
| Setup.CollidingBamLinksRaise | scripts/ncov-tools.py:126-136 | so set_up raises `NameError` although no list repeats a sample |
| Setup.BamLinksContents | scripts/ncov-tools.py:125-136 | with the BAM link paths apart, both BAM loops succeed and link every BAM and primer-trimmed BAM |
| Setup.LinkIvarKeepsBamLinks | scripts/ncov-tools.py:141-142 | the following link_ivar leaves the BAM links as they were |
| Setup.FreebayesLinkAllContents | scripts/ncov-tools.py:125-140 | with FreeBayes and every output present, all BAMs are linked and the FreeBayes variants and consensus outputs are linked, the consensus with renamed headers |
| Setup.IvarLinkAllContents | scripts/ncov-tools.py:125-142 | without FreeBayes, all links are made under their sample names, and the consensus copies carry the renamed headers |

## Left out

- The HTTP request for the latest pangolin release (lines 78-79). Its final URL is a parameter.
- `run_all` and the `subprocess.run` / `os.system` calls that start ncov-tools. These are external programs.
- `move` is not modelled: it is never called.
- The `print` progress messages. They have no effect on files.
- Directories as filesystem entries. `os.mkdir` and `shutil.rmtree` appear only through `ClearSpec`, and parent directories are assumed to exist.
- `os.path.abspath` normalisation of the data root. A trailing `/` is dropped, as `abspath` drops it, but `..`, `.` and duplicate slashes are not resolved, and a relative `exec_dir` is not made absolute.
- Relative input paths are taken as keys of the same map as absolute ones. The current directory is not modelled.
- Universal-newline translation of `\r` and `\r\n` when reading, and file encodings.
- Pangolin.Lower: only ASCII letters are lowered.
- Config.ReprStr: only backslash, the quote, `\n`, `\r` and `\t` are escaped. Other unprintable characters are kept as they are.
- The `snakemake` object is not modelled. Its params and input lists are the `Params` and `Inputs` parameters; `snakemake.threads` is not modelled.
- `list(neg_samples)` has no order fixed by its inputs. `SetUp` returns the list it chose; `SetUpSpec` takes that list as a parameter.
- `offset: 0` and `completeness_threshold: 0.9` are written as the fixed texts `0` and `0.9`, not as numbers.
- The `assert` at line 76 is modelled as always evaluated (Python without `-O`).
- Setup.SetUp: does not return the pair `(exec_dir, result_dir)`. Its values are `p.execDir` and `Basename(p.resultDir)`.
- FileStore.LinkSpec: the order of the two `os.link` checks (missing source first) follows Linux; other systems may report the existing target first.
- Setup.IvarLinkAllContents: states the links as the linking part of set_up leaves them, before `config.yaml` is written. That the config path lies outside the data root is not proved; with a trailing `/` on `result_dir` it lies inside (`Paths.TrailingSlashRoot`).
- Setup.FreebayesLinkAllContents: like `IvarLinkAllContents`, it states the links before `config.yaml` is written.
