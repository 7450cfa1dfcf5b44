# Galaxy client of the eDentity metabarcoding pipeline, in Dafny

This project models `galaxy_client.py`. That file is the adapter Galaxy calls to run the
eDentity metabarcoding pipeline on a ZIP archive of FASTQ files. It does four things:

- **Selects and stages the input.** `get_filenames` picks the FASTQ entries of the
  archive. It rejects an entry name holding a space, `*`, `'` or `"`, rejects an
  archive without FASTQ entries, and rejects entries spread over more than one
  directory. `extract_fastq_files` extracts the selected entries and moves every one
  that is not directly in the staging directory up into it, under its basename.
- **Builds the command.** `main` assembles the argument vector of the external
  `edentity` tool: the program name, five flag/value pairs, then up to three switches,
  then twelve flag/value pairs. A switch is present only when its setting's text,
  lower-cased, is `true` or `1`.
- **Collects the results.** `outputs` moves four result files from below the work
  directory to the paths Galaxy asked for. It then writes every report-directory entry
  whose name ends with `.json` into one ZIP archive, each under its basename
  (`zip_file`).
- **Orders the steps.** `main` checks the input archive's name for a space, stages the
  input into `<cwd>/input_data`, runs the tool with work directory `<cwd>/<project>`,
  and collects from there.

Modules, one per concern:

- `Results`: `Option` and `Result`.
- `Seqs`: order-preserving selection, the list comprehension with an `if`.
- `Paths`: `posixpath` `basename`, `dirname` and `join`, `str.split('/')`, and the parts
  of an entry name that `zipfile` keeps when it extracts.
- `FastqSelection`: `get_filenames`, including the regular expression.
- `Flatten`: `extract_fastq_files`.
- `Command`: the argument vector, with its decoder.
- `Outputs`: `outputs` and `zip_file`, over a file system that maps paths to contents.
- `Job`: `main`.

Behaviour worth knowing, modelled as the code has it:

- `re.search(r'.*[.]fastq([.]gz)?$', n)` also accepts a name that ends in `.fastq` or
  `.fastq.gz` followed by one newline, because `$` matches before a final newline.
  `RegexSearchIsSuffixTest` states the exact test. `NewlineFreeFastqName` shows it is
  the plain suffix test on names without a newline.
- `os.path.dirname` strips the trailing slashes of the head. So `d/x.fastq` and
  `d//x.fastq` are both accepted, and both land on the same staged path
  (`DoubledSlashCollides`). `zipfile` drops empty parts, so they are also extracted to
  the same file: two selected entries land on the same final path exactly when they are
  extracted to the same file (`SameFinalPathIffSameFile`).
- The single-directory check means no two different extracted files are flattened onto
  one name. A general silent overwrite when flattening therefore cannot happen here.
  The same holds for the JSON archive: the names come from one directory listing, so
  they are distinct (`JsonArcnamesDistinct`).
- Flattening can fail on an accepted archive. The extraction creates the first
  directory of the shared dirname at the top of the staging directory. If a file has
  that directory's name (`x.fastq/x.fastq`), `shutil.move` finds its target taken and
  raises (`StagingBlockedIff`, `OwnNameDirectoryBlocks`).
- The intermediate directories left after flattening are not removed: the code moves
  files only.

## Model

All source paths are in `galaxy_client.py`.

| member | source | states |
|---|---|---|
| Seqs.FilterMembership | galaxy_client.py:18 | a name is selected exactly when it is in the list and satisfies the test |
| Seqs.FilterIsOrderedSelection | galaxy_client.py:18 | the selection is the subsequence at the satisfying positions, in list order |
| Seqs.MatchingIndices | galaxy_client.py:18 | the satisfying positions, strictly ascending, each in range and satisfying, none missing |
| Seqs.SelectedPrefixLifts | galaxy_client.py:18-21 | a property of the first k selected elements holds of every satisfying element before the k-th in the original list |
| Seqs.FilterAppend | galaxy_client.py:18 | selecting from a concatenation is concatenating the selections |
| Seqs.FilterCounts | galaxy_client.py:18 | each satisfying element is kept as often as it occurs; others are dropped |
| Seqs.FilterKeepsDistinct | galaxy_client.py:115 | selecting from a list without repeats gives a list without repeats |
| Seqs.FilterKeepsAll | galaxy_client.py:18 | when every element satisfies the test, nothing is dropped |
| Seqs.FilterKeepsNone | galaxy_client.py:18 | when no element satisfies the test, the selection is empty |
| Seqs.FilterSingleton | galaxy_client.py:18 | a one-element list keeps its element exactly when it satisfies the test |
| Seqs.FirstIndex | galaxy_client.py:19-21 | the first position whose element fails the check, with all before it passing, or none when all pass |
| Paths.LastSlash | galaxy_client.py:25 | the position of the last '/', or -1 when the path has none |
| Paths.Basename | galaxy_client.py:81 | `basename` contains no '/' |
| Paths.HeadBasenameSplit | galaxy_client.py:81 | a path is its head followed by its basename; the head is empty or ends with '/' |
| Paths.StripTrailingSlashes | galaxy_client.py:25 | removes exactly the trailing '/' characters: a prefix, followed only by slashes, not ending in one |
| Paths.NoSlashNoHead | galaxy_client.py:25 | a root entry has dirname "" and is its own basename |
| Paths.BasenameOfJoin | galaxy_client.py:117-119 | `basename(join(a, b))` is `b` for a plain name `b` |
| Paths.DirnameOfJoin | galaxy_client.py:41-44 | `dirname(join(a, b))` is `a` for a plain `b` and an `a` without a trailing '/' |
| Paths.JoinCancel | galaxy_client.py:41-44 | joining two plain names below one directory gives one path exactly when the names are equal |
| Paths.JoinAllGrows | galaxy_client.py:161-162 | joining plain names gives a longer path without a trailing '/' |
| Paths.JoinAllRelative | galaxy_client.py:91-107 | below a directory without a trailing '/', `join` puts exactly one '/' before each relative part |
| Paths.Split | galaxy_client.py:39 | `split('/')` yields at least one piece |
| Paths.SplitPiecesHaveNoSlash | galaxy_client.py:39 | no piece of `split('/')` contains '/' |
| Paths.SplitRoundTrip | galaxy_client.py:39 | `'/'.join(name.split('/')) == name` |
| Paths.ComponentsArePlain | galaxy_client.py:39 | every part `zipfile` keeps is a plain name other than "." and ".." |
| Paths.ComponentsOfEntry | galaxy_client.py:39-44 | an entry's kept parts are those of its dirname followed by its basename |
| Paths.ComponentsStrip | galaxy_client.py:25 | trailing slashes add no part |
| Paths.ComponentsOfDirname | galaxy_client.py:25 | a path's dirname and its head have the same parts |
| Paths.DirnameBasenameDetermine | galaxy_client.py:25 | a name without "//" is determined by its dirname and its basename |
| FastqSelection.RegexSearchIsSuffixTest | galaxy_client.py:18 | the regex search succeeds exactly on names ending in `.fastq` or `.fastq.gz`, optionally followed by one newline |
| FastqSelection.NameEndingMatches | galaxy_client.py:18 | every name with such an ending has a match |
| FastqSelection.MatchEndsName | galaxy_client.py:18 | every match forces such an ending |
| FastqSelection.NewlineFreeFastqName | galaxy_client.py:18 | for names without a newline the test is plain `endswith` of the two extensions |
| FastqSelection.NewlineEndingOccurs | galaxy_client.py:18 | the newline variant only arises for names that contain a newline |
| FastqSelection.FastqBasenameIsNamePart | galaxy_client.py:18 | a selected name's basename is a plain, keepable file name |
| FastqSelection.FindIllegal | galaxy_client.py:19-21 | none exactly when every selected name is clean; otherwise the first unclean name, every earlier one clean, with its first illegal character in the order space, `*`, `'`, `"` |
| FastqSelection.LocationsSingleton | galaxy_client.py:25-26 | one distinct dirname exactly when all dirnames are equal |
| FastqSelection.GetFilenames | galaxy_client.py:13-27 | on success: the selection, non-empty, clean, FASTQ names, one directory |
| FastqSelection.AcceptedAreOrderedSelection | galaxy_client.py:18-27 | the accepted list is the matching names in archive order |
| FastqSelection.AcceptanceOnSelection | galaxy_client.py:19-26 | accepted exactly when the selection is clean, non-empty and in one directory |
| FastqSelection.AcceptanceCondition | galaxy_client.py:13-27 | the same condition stated on the archive listing itself |
| FastqSelection.NonMatchingIgnored | galaxy_client.py:18 | inserting a non-matching name changes nothing |
| FastqSelection.IllegalCharacterComesFirst | galaxy_client.py:19-23 | any unclean FASTQ name yields the illegal-character error, even when the list would otherwise fail another check |
| FastqSelection.IllegalCharacterCase | galaxy_client.py:19-21 | the error names the first unclean name and its first illegal character, and arises only then |
| FastqSelection.IllegalCharacterReport | galaxy_client.py:19-21 | the reported name is a FASTQ name in the listing, every FASTQ name before it is clean, and the character is its first illegal one |
| FastqSelection.NoFastqFilesIff | galaxy_client.py:23 | "no FASTQ files" exactly when no name matches |
| FastqSelection.MixedLocationsCase | galaxy_client.py:25-26 | a mixed-location error means a clean, non-empty selection whose dirname set is not a singleton |
| FastqSelection.TwoLocations | galaxy_client.py:25-26 | such a selection has two names in different directories |
| FastqSelection.LocationsOfSelected | galaxy_client.py:25 | the dirname set is exactly the dirnames of the matching names |
| FastqSelection.CleanButMixed | galaxy_client.py:25-26 | for a clean non-empty selection in several directories: at least two dirs, two names apart, the reported set exact |
| FastqSelection.MixedLocationsReport | galaxy_client.py:25-26 | the mixed-location error carries at least two directories, all from matching names; all matches are clean |
| FastqSelection.RootFilesAccepted | galaxy_client.py:25-27 | clean FASTQ names at the archive root ("" counts as one directory) are accepted as they are |
| FastqSelection.TwoDirectoriesRejected | galaxy_client.py:25-26 | two clean FASTQ files in different directories are rejected as mixed |
| FastqSelection.SpaceRejected | galaxy_client.py:19-21 | a FASTQ name with a space is rejected, naming the space |
| Flatten.Place | galaxy_client.py:39-44 | an entry is extracted to the join of its parts and ends at the staging dir joined with its last part; moved exactly when nested |
| Flatten.NestedPathDiffers | galaxy_client.py:43 | the walk's path differs from the top-level path exactly when the file is nested |
| Flatten.ExtractedParts | galaxy_client.py:39 | the kept parts of a selected entry: those of its dirname, then its basename, all plain |
| Flatten.PlaceEntry | galaxy_client.py:39-44 | a selected entry ends at `join(outDir, basename)`, moved exactly when its dirname has a kept part |
| Flatten.StageFiles | galaxy_client.py:39-44 | one placement per selected file, in order: extracted at the join of its kept parts, ending at `join(outDir, basename)`, moved exactly when its dirname has a kept part |
| Flatten.StagedFilesAreTopLevel | galaxy_client.py:41-44 | every staged file's dirname is the staging directory and its basename is the entry's |
| Flatten.ExtractFastqFiles | galaxy_client.py:30-46 | a non-ZIP input fails; a selection error propagates; an accepted selection is flattened, which may fail on a blocked move; on success the result is the selection, and each placement is as above |
| Flatten.TopNameTakenIff | galaxy_client.py:39-44 | for files in one directory, the test made before flattening holds exactly when a nested file has the name of a directory extraction created at the top |
| Flatten.FlattenBlockedIff | galaxy_client.py:39-44 | flattening files in one directory fails exactly when a move is blocked, reporting the path a nested file would have been moved to |
| Flatten.StagingBlockedIff | galaxy_client.py:30-44 | an accepted listing fails to stage exactly when a move is blocked, with `DestinationExists` at a nested file's target |
| Flatten.OwnNameDirectoryBlocks | galaxy_client.py:18-44 | `f/f` for a clean FASTQ name `f` is accepted, yet staging fails with `DestinationExists(join(outDir, f))` |
| Flatten.SameFinalPathIffSameFile | galaxy_client.py:39-44 | two entries in one directory land on one path exactly when they are extracted to one file |
| Flatten.AcceptedNamesLandApart | galaxy_client.py:36-44 | distinct accepted names without "//" land on distinct paths |
| Flatten.DoubledSlashCollides | galaxy_client.py:25-44 | `d/f` and `d//f` are distinct, both accepted, and land on the same path |
| Flatten.SameDirectoryPairAccepted | galaxy_client.py:13-27 | two clean FASTQ names sharing a dirname are accepted in order |
| Flatten.SingleAndDoubleSlash | galaxy_client.py:18-25 | `d/f` and `d//f` are both FASTQ names with dirname `d` and basename `f` |
| Flatten.SuffixKeepsFastqName | galaxy_client.py:18 | prefixing a matching name keeps it matching (the converse fails: `x.fast` + `q`) |
| Flatten.DoubledSlashDirname | galaxy_client.py:25 | `dirname("d//f") == d` and `basename("d//f") == f` |
| Command.Lower | galaxy_client.py:187 | lower-casing keeps the length |
| Command.TruthyIff | galaxy_client.py:187-192 | `v.lower() in ("true","1")` exactly for "1" and the 16 case spellings of "true" |
| Command.DefaultIsOff | galaxy_client.py:187-192 | an unset switch (`str(False)`) is off |
| Command.Resolve | galaxy_client.py:186-192 | an unset json-report or anchoring switch is off |
| Command.ResolveGate | galaxy_client.py:186-192 | each switch is on exactly when its setting passes `str(v).lower() in ("true","1")` |
| Command.EdentityValid | galaxy_client.py:177-206 | the tool's spelling: 5 leading flags, 12 trailing flags, three different switches |
| Command.Pairs | galaxy_client.py:177-184 | interleaving n flags with n values gives 2n words |
| Command.PairsIndex | galaxy_client.py:177-184 | word 2i is the i-th flag, word 2i+1 the i-th value |
| Command.PairsSplit | galaxy_client.py:194-208 | the even and odd words of the pairs give back the flags and the values |
| Command.SplitPairs | galaxy_client.py:194-208 | any even-length vector is the pairs of its even and odd words |
| Command.Prefix | galaxy_client.py:177-184 | the leading part has 11 words |
| Command.Suffix | galaxy_client.py:194-208 | the trailing part has 24 words |
| Command.Encode | galaxy_client.py:177-208 | the vector has 35 + k words: the leading part, the switches, the trailing part, in that order |
| Command.SwitchOccurrences | galaxy_client.py:186-192 | how often a word occurs among the switches, as a sum over the three gates |
| Command.SwitchCounts | galaxy_client.py:186-192 | at most three switches; each occurs once when on and not at all when off |
| Command.SwitchOrder | galaxy_client.py:186-192 | the switches present appear in the fixed order json, discard, anchoring |
| Command.DecodeSwitchesOfSwitches | galaxy_client.py:186-192 | reading the switch words back gives the three decisions |
| Command.SwitchesOfDecodeSwitches | galaxy_client.py:186-192 | switch words that read back as three decisions are those decisions' switches |
| Command.InvocationOf | galaxy_client.py:177-208 | rebuilt from its values and decisions, an invocation has exactly those |
| Command.InvocationOfValues | galaxy_client.py:177-208 | an invocation is determined by its values and decisions |
| Command.EncodedPrefixPairs | galaxy_client.py:177-184 | word 0 is the program, words 1-10 the five leading pairs |
| Command.DecodeEncode | galaxy_client.py:177-208 | decoding the vector gives back the invocation |
| Command.DecodedPrefix | galaxy_client.py:177-184 | a decodable vector starts with its invocation's leading part |
| Command.DecodedSuffix | galaxy_client.py:194-208 | a decodable vector ends with its invocation's trailing part |
| Command.DecodedSwitches | galaxy_client.py:186-192 | a decodable vector's middle is its invocation's switches |
| Command.EncodeFromParts | galaxy_client.py:177-208 | a vector with the three parts of an invocation is that invocation's vector |
| Command.EncodeDecode | galaxy_client.py:177-208 | every decodable vector is the encoding of what it decodes to |
| Command.CommandReadsBack | galaxy_client.py:177-208 | main's vector decodes to the resolved settings |
| Command.CommandPrefix | galaxy_client.py:177-184 | main's vector starts with `edentity`, then raw data dir, data type, work dir and primers, each after its flag |
| Command.EncodedPrefixAt | galaxy_client.py:177-184 | word 2i+1 is the i-th leading flag and word 2i+2 its value |
| Command.EncodedDirectories | galaxy_client.py:179-181 | words 1-2 are the raw-data-dir flag and value; words 5-6 the work-dir flag and value |
| Command.CommandDirectories | galaxy_client.py:179-181 | in main's vector, `--raw_data_dir` is followed by the input directory and `--work_dir` by the work directory |
| Command.EncodedSwitches | galaxy_client.py:186-192 | between the parts lie 0 to 3 switches, each present once exactly when on, in the fixed order |
| Command.CommandSwitches | galaxy_client.py:186-192 | in main's vector each switch is present exactly when its setting is a true spelling, in the fixed order |
| Command.CommandSuffix | galaxy_client.py:194-208 | main's vector ends with the twelve flags, each followed by its setting |
| Outputs.EsvTableLayout | galaxy_client.py:91 | the ESV table is `<work>/Results/report/<project>_ESV_table.tsv` |
| Outputs.SummaryReportLayout | galaxy_client.py:95 | the summary is `<work>/Results/report/<project>_summary_report.tsv` |
| Outputs.MultiqcReportLayout | galaxy_client.py:99-101 | the MultiQC report is `<work>/Results/report/<project>_multiqc_reports/<project>_multiqc_report.html` |
| Outputs.EsvSequencesLayout | galaxy_client.py:105-106 | the ESV sequences are `<work>/Results/ESVs_fasta/<project>_esv_sequences.fasta` |
| Outputs.SourcesDistinct | galaxy_client.py:91-107 | the four result files are four different paths |
| Outputs.MoveFile | galaxy_client.py:92 | after a move the target holds the source's contents, the source is gone, all else is unchanged |
| Outputs.AbortIsFirstMissing | galaxy_client.py:91-107 | a run that stops does so at the first missing source, with every earlier move made |
| Outputs.SeparatedRunDelivers | galaxy_client.py:91-107 | moves with present, distinct sources onto distinct fresh targets all succeed, each target with its source's contents |
| Outputs.SeparatedRunKeeps | galaxy_client.py:91-107 | such a run leaves every other path as it was |
| Outputs.SeparatedRunEmptiesSources | galaxy_client.py:91-107 | such a run removes every source |
| Outputs.ZipFileEntry | galaxy_client.py:80-82 | a file is stored under a '/'-free name; its path is its head followed by that name |
| Outputs.JsonArchive | galaxy_client.py:115-119 | one archive entry per `.json` name |
| Outputs.JsonArchiveContents | galaxy_client.py:115-119 | the archive holds exactly the `.json` entries in listing order, each read from the report directory and stored under its own name |
| Outputs.JsonArcnamesDistinct | galaxy_client.py:115-119 | distinct listing entries get distinct stored names |
| Outputs.CollectDelivers | galaxy_client.py:85-119 | with the four files present and fresh destinations, each destination gets its file, the files leave the work dir, and the archive of the JSON entries is written at its own destination |
| Outputs.CollectLeavesOthers | galaxy_client.py:91-119 | then every path other than the result files, their destinations and the archive's path is untouched |
| Outputs.MissingTableMovesNothing | galaxy_client.py:91-92 | a missing ESV table aborts before any move or archive |
| Outputs.CollectAbortsAtFirstMissing | galaxy_client.py:91-107 | an abort happens at the first missing result file, with the moves before it done |
| Job.SpaceRejectedFirst | galaxy_client.py:156 | the space error arises exactly when the input name has a space, whatever the archive |
| Job.StagingFailureStops | galaxy_client.py:156-170 | without a space, a staging error is main's error, and staging success lets main go on |
| Job.StagedInto | galaxy_client.py:30-44 | a ZIP whose listing is accepted and whose moves are not blocked stages, and every staged file lies directly in the input directory, under its entry's basename |
| Job.CommandReadsStagedFiles | galaxy_client.py:156-184 | for a name without a space and an accepted ZIP listing whose moves are not blocked, main reaches the command, which reads from the directory the files were staged in and works in `<cwd>/<project>` |
| Job.ClientDelivers | galaxy_client.py:156-214 | a run with a space-free name, an accepted ZIP listing without blocked moves and a plain project, whose pipeline left the four files in the command's work dir, delivers each to its destination and writes the JSON archive at its path |

## Left out

- Running the tool (`edentityCmd`, lines 59-67): `subprocess.run` is a foreign call.
  The file system it leaves behind is a parameter of `Job.RunClient`.
- Removing `.snakemake` (lines 71-76): file-system clean-up, not modelled. It has no
  effect on the results unless the work directory lies inside `.snakemake` (a project
  named `.snakemake` or `.snakemake/...`). Then the results are deleted before
  `outputs` runs, `produced` lacks them, and `Outputs.Collect` aborts.
- Argument parsing (lines 125-155): `argparse` is a library. Its outcome is the
  `Command.Config` record, and an unset optional switch is the `Default` setting
  (`False`).
- Real ZIP reading and writing, and `print` output: I/O. The archive is its list of
  entry names. The JSON archive is its list of entries. The report-directory listing is
  a parameter, in `os.listdir` order. The written JSON archive is a file whose content
  is its list of entries (source path and stored name), not compressed bytes.
- Command.Lower: models `str.lower` on ASCII letters only, because Unicode case mapping
  is out of scope. The gate's true spellings are ASCII, so no non-ASCII text can pass
  it by this choice.
- Outputs.MoveFile: models moving a file onto a file path only. `shutil.move` onto an
  existing directory, and across file systems, are not modelled.
- Flatten.ExtractFastqFiles:
  - the walk sees only the files extracted now, not files already in the staging
    directory;
  - intermediate directories stay in place, as in the code;
  - `zipfile`'s handling of drive letters and of absolute names is reduced to dropping
    "", "." and ".." parts;
  - names holding a NUL character are not distinguished.
  - when a move is blocked, which files were already moved depends on the directory
    listing order; the model reports only the failure, since `main` stops there.
- Job.RunClient: `cwd` is taken as a non-empty path, as `os.getcwd()` always returns.
  A project name with a '/' is allowed, but the layout lemmas assume a plain name.
