# corpus-packer in Dafny

corpus-packer walks a source tree and packs the files it accepts into one text corpus. Each
packed file is wrapped in `--- START OF FILE: … ---` and `--- END OF FILE: … ---` separators.
The text may optionally be compressed, and the output may be gzipped and base64-encoded. In
verbose mode a summary of the run comes before the packed files.

This project models the packer's processing core (`cmd/process.go`) and its configuration
helpers (`cmd/config.go`), and proves properties of that model.

Modules:

- `Wrappers`: `Option` and `Result`.
- `Text`: the parts of Go's `strings`, `path/filepath` and `fmt` the core relies on.
  - `Fields`, `Join`, `ReplaceAll`, `TrimSpace`, `HasPrefix`, `HasSuffix`, `Contains`.
  - `Base` and `Ext`.
  - `%d` of naturals.
- `Glob`: the part of `filepath.Match` that the ignore patterns use.
- `Order`: Go's byte-wise string order and `sort.Strings`.
- `Compress`: `compressContent` and `removeComments`, as functions over strings, and the
  `CompressContent` method with its loop over the symbol list.
- `Process`: the run as the code performs it.
  - The run configuration and the output-name rule.
  - Extension normalisation.
  - The directory and file filters.
  - The per-file ledger built during the walk.
  - The `Summary` and `FileProcessor` classes, whose methods update the summary lists, the
    output text, the verbose buffer and the set of packed paths in place.
  - The summary text.
  - The writer chain, and `ProcessDirectory` for a whole run.
- `Configuration`: `cmd/config.go`, covering `DefaultConfig`, `MergeConfig`,
  `isEmptyConfig`, `ApplyDefaults` and `sliceEqual`.

Some behaviours of the code that a reader might not expect, and which the model keeps:

- The root directory is not always descended into. When `ValidDirs` is non-empty and none of
  its entries contains a `/`, `isValidRootDir` rejects `.`, and the walk packs nothing
  (`Process.FlatValidDirsPruneRoot`, `Process.PrunedRootWalksNothing`).
- Compression does not remove the file separators.
  - The separators are written around the compressed content, trimmed but intact
    (`Process.CompressedBlockKeepsMarkers`).
  - The marker stripping inside `compressContent` never fires: symbol squashing has already
    removed the space after every `-` (`Compress.StripMarkersInert`,
    `Compress.CompressedIgnoresVerbose`).
- There is no include/exclude glob engine. The walk filters with the extension list,
  `filepath.Match` on base names, and the valid-directory prefix test.
- `cmd/config.go` and `cmd/process.go` both declare `Config` and `DefaultConfig` in the same
  package, with different fields. They are modelled as two modules
  (`Configuration.Config` and `Process.Config`).

## Model

| member | source | states |
|---|---|---|
| Process.DefaultConfig | cmd/process.go:44-114 | the defaults are the current directory, `corpus-out.txt`, every flag off, a non-nil extension list and no valid directories |
| Process.OutputNameCases | cmd/process.go:124-133 | an empty or default name becomes `corpus-out.txt` or `corpus-out.txt.gz`; another name gets `.gz` appended exactly when gzip is on, it does not end in `.gz`, and it does not contain `.gz.`; otherwise it is kept |
| Process.OutputNameGzip | cmd/process.go:124-133 | with gzip the chosen name ends in `.gz` or contains `.gz.`; a doubled `.gz.gz` suffix is never introduced |
| Process.OutputNameIdempotent | cmd/process.go:124-133 | applying the output-name rule to its own result changes nothing |
| Process.NormalizeExt | cmd/process.go:493-498 | an extension comes out lower-cased with a leading dot, adding one character at most |
| Process.NormalizedExtensionsSpec | cmd/process.go:491-506 | the normalised list has no duplicates and holds lower-case, dot-prefixed entries; it holds exactly the normalisations of the input entries |
| Process.NormalizedExtensionsStep | cmd/process.go:492-499 | one more input entry appends its normalisation exactly when that is not yet in the list |
| Process.NormalizeExtensions | cmd/process.go:491-506 | the map-based loop yields the normalised list (no duplicates, lower-case, dot-prefixed) |
| Process.BadDirPatternSkipped | cmd/process.go:282-296 | a directory pattern that `filepath.Match` rejects neither prunes nor spares a directory |
| Process.NoValidDirsKeepsAll | cmd/process.go:270-309 | with no valid directories, a directory is pruned exactly when an ignore pattern matches its base name |
| Process.FlatValidDirsPruneRoot | cmd/process.go:298-319 | valid directories none of which contains `/` prune the root directory |
| Process.IgnoreWins | cmd/process.go:421-431 | an ignore pattern matching the base name rejects a file whatever its extension |
| Process.BadFilePatternSkipped | cmd/process.go:421-431 | a file pattern that `filepath.Match` rejects changes no verdict |
| Process.EmptyExtensionsAcceptNothing | cmd/process.go:408-419 | an explicitly empty extension list accepts no file |
| Process.GoTestPatternMatches | cmd/process.go:423 | `*_test.go` matches every base name ending in `_test.go` |
| Process.DefaultsSkipGoTests | cmd/process.go:105-112 | the default ignore patterns reject every path whose base name ends in `_test.go`, whatever the extension list |
| Process.NestedGoTestSkipped | cmd/process.go:105-112 | a Go test file in a subdirectory of the input directory is rejected by default |
| Process.RootGoTestSkipped | cmd/process.go:105-112 | a Go test file directly in the input directory, whose relative path has no `/`, is rejected by default |
| Process.FileStep | cmd/process.go:354-406 | processing a file records it exactly once, as processed or skipped; in verbose mode nothing reaches the output and otherwise nothing reaches the buffer; a packed path is added to both the processed list and the marked set |
| Process.FileStepAppends | cmd/process.go:382-402 | processing a file only appends to the output and to the buffer |
| Process.FileStepPacks | cmd/process.go:366-404 | an accepted, readable file is appended to the processed list, its size is added, it is marked, and its block goes to the buffer (verbose) or the output |
| Process.FileStepSkips | cmd/process.go:355-365 | a rejected file, or an unreadable one (with ` (read error)`), only lengthens the skipped list |
| Process.PathStep | cmd/process.go:247-268 | a subtree is skipped exactly when an unmarked directory is pruned; access errors, marked paths and directories leave the ledger unchanged |
| Process.DropUnder | cmd/process.go:206 | skipping a directory drops exactly the leading entries under it |
| Process.FileStepKeepsInv | cmd/process.go:259-261 | packing an unmarked file keeps the processed list duplicate-free and equal to the marked set |
| Process.WalkKeepsInv | cmd/process.go:259-261 | over a whole walk, every path is packed at most once |
| Process.WalkSinks | cmd/process.go:382-402 | a verbose walk leaves the output untouched and a plain walk leaves the buffer untouched; both only append |
| Process.StepSinks | cmd/process.go:382-402 | one walk step writes only to its own sink, output or buffer, and only appends |
| Process.StepWrites | cmd/process.go:382-402 | one walk step appends to its sink exactly the block of the file it packs, if any, and lists exactly that file as processed |
| Process.WalkWritesBlocks | cmd/process.go:382-402 | a walk appends to its sink exactly the blocks of the files it packs, in the order it packs them, and adds exactly those files to the processed list |
| Process.WalkPacksEachOnce | cmd/process.go:259-261 | a walk from the empty ledger writes the blocks of the files it packs and nothing else, and no file's block twice |
| Process.PrunedSubtreeVanishes | cmd/process.go:270-280 | a pruned directory and everything under it contribute nothing: the walk continues after the subtree |
| Process.PrunedRootWalksNothing | cmd/process.go:298-305 | when the root is pruned, the walk leaves the ledger as it was |
| Process.RevisitIgnored | cmd/process.go:259-261 | meeting an already packed path again changes nothing |
| Process.BlockIgnoresVerbose | cmd/process.go:375-379 | a packed block is the same in verbose and plain mode |
| Process.WalkMirrors | cmd/process.go:382-402 | a verbose walk records the same lists and byte total as a plain walk, and buffers exactly what the plain walk writes |
| Process.WalkCountsEveryFile | cmd/process.go:354-365 | with nothing pruned and no path repeated, each regular file is counted once as processed or skipped |
| Process.SummaryTotalsAddUp | cmd/process.go:443-465 | the summary text opens with the "Total Files", "Total Files Processed" and "Total Files Skipped" lines; their figures are digit strings, the latter two read back as the list lengths and the first reads back as their sum |
| Process.Summary.constructor | cmd/process.go:201-203 | a new summary has empty lists and no bytes |
| Process.FileProcessor.constructor | cmd/process.go:196-204 | a new processor starts from the empty ledger |
| Process.FileProcessor.ShouldIgnoreDir | cmd/process.go:282-296 | the loop answers whether some pattern, without a leading `**/`, matches the base name; malformed patterns are skipped |
| Process.FileProcessor.IsValidRootDir | cmd/process.go:311-319 | the root is valid exactly when some valid directory contains `/` |
| Process.FileProcessor.IsValidSubDir | cmd/process.go:321-346 | a directory is valid exactly when it equals, is an ancestor of, or is inside a valid directory |
| Process.FileProcessor.IsValidDir | cmd/process.go:298-309 | every directory is valid when no valid directories are given; otherwise the root and other directories use their own tests |
| Process.FileProcessor.ProcessDirectory | cmd/process.go:270-280 | the walk skips a directory exactly when it is ignored or not valid |
| Process.FileProcessor.IsValidFile | cmd/process.go:408-434 | a file is accepted exactly when its lower-cased extension is listed and no well-formed ignore pattern matches its base name |
| Process.FileProcessor.PackedBlock | cmd/process.go:370-379 | the separators and content written for a file are the file's block |
| Process.FileProcessor.ProcessFile | cmd/process.go:354-406 | the processor's new state is the file step applied to its old state |
| Process.FileProcessor.ProcessPath | cmd/process.go:247-268 | the new state and the skip answer are the path step's |
| Process.FileProcessor.Walk | cmd/process.go:206 | the state after the walk is the walk of the entries from the old state, honouring subtree skips |
| Process.FileProcessor.CompressIfEnabled | cmd/process.go:375-376 | text is compressed exactly when compression is on, and the result is then collapsed and no longer |
| Process.FileProcessor.WriteSummary | cmd/process.go:436-474 | both lists are sorted in place and the output gains the summary of the run, compressed when compression is on |
| Process.PreparedKeeps | cmd/process.go:118-144 | the prepared configuration has an input directory and a non-nil extension list; a given input directory, a given extension list, the valid directories and all flags are kept |
| Process.PreparedIdempotent | cmd/process.go:118-144 | filling in the defaults twice equals filling them in once |
| Process.PreparedLists | cmd/process.go:135-144 | a nil extension list becomes the defaults while an empty one stays empty; empty ignore lists become the defaults; non-empty ones are kept |
| Process.Validated | cmd/process.go:476-509 | validation fails exactly when the input directory is missing; otherwise only the extension list changes, to its normalised form |
| Process.ValidateConfig | cmd/process.go:476-509 | the method yields the validation result, with a duplicate-free extension list |
| Process.ApplyRunDefaults | cmd/process.go:118-144 | the defaulting code yields the prepared configuration |
| Process.Pack | cmd/process.go:206-221 | the text written into the chain is the walk's output, plus in verbose mode the summary followed by the buffer |
| Process.ProcessDirectory | cmd/process.go:117-236 | a run yields what the run specification says, given the file system's answers |
| Process.TrimmedStartSeparator | cmd/process.go:371-378 | trimming the start separator removes only its line break |
| Process.TrimmedEndSeparator | cmd/process.go:372-379 | trimming the end separator removes only its line breaks |
| Process.CompressedBlockKeepsMarkers | cmd/process.go:371-379 | a compressed block is the start marker, one space, the compressed content, one space, the end marker, one space |
| Process.RunSucceeds | cmd/process.go:146-181 | a run gets past its checks exactly when the input exists, the output directory and file can be made, and base64 comes with gzip |
| Process.MissingInputCreatesNothing | cmd/process.go:146-149 | a missing input directory is reported before any file is created |
| Process.Base64WithoutGzipLeavesFile | cmd/process.go:168-180 | base64 without gzip is refused after the output file has been created |
| Process.WriterChainOrder | cmd/process.go:174-188 | the file is the innermost writer and gzip the outermost; the chain is file–base64–gzip, file–gzip or the file alone, as the flags say; the close order is the reverse of the chain, with the file closed last |
| Process.SettledKeepsVerbose | cmd/process.go:118-144 | the verbose flag passes through the defaults and the validation unchanged |
| Process.PackedVerbose | cmd/process.go:206-221 | verbose packing writes the summary of the walk followed by exactly what plain packing writes |
| Process.PlainPackedIsBlocks | cmd/process.go:206-221 | without verbose mode the packed text is the blocks of the packed files, no file twice |
| Process.VerboseIsSummaryThenPlain | cmd/process.go:213-221 | verbose and plain runs succeed alike, and verbose output is the summary of the walk followed by exactly the plain output |
| Compress.CollapseKeepsWords | cmd/process.go:520 | whitespace collapsing keeps the sequence of words |
| Compress.CollapseShape | cmd/process.go:520 | collapsed text has single plain spaces, none at either end, and is no longer than the input |
| Compress.ReplaceAllThins | cmd/process.go:525-529 | a replacement that only drops white space only drops white space from the text |
| Compress.SquashSymbolSpec | cmd/process.go:525-529 | squashing one symbol only drops spaces, keeps the text collapsed, and leaves no space next to the symbol |
| Compress.SquashSymbolsSpec | cmd/process.go:522-530 | squashing every symbol only drops spaces, keeps the text collapsed, and leaves no space next to any symbol |
| Compress.SquashSymbolEnds | cmd/process.go:525-529 | a first or last character that is neither a space nor the symbol stays where it is |
| Compress.SquashSymbolAround | cmd/process.go:525-529 | a space with neither a space nor the symbol on either side survives squashing, and the text on each side of it is squashed on its own |
| Compress.SquashSymbolAbsent | cmd/process.go:525-529 | text without the symbol is unchanged |
| Compress.SquashSymbolsAround | cmd/process.go:522-530 | a space with neither a space nor any symbol on either side survives squashing all symbols, and the two sides are squashed on their own |
| Compress.SquashSymbolsAbsent | cmd/process.go:522-530 | text containing none of the symbols is unchanged |
| Text.ReplaceAllAround | cmd/process.go:525-529 | replacing a pattern of two or more characters keeps a character whose two neighbours the pattern does not contain, and works on each side of it independently |
| Compress.GlueStep | cmd/process.go:532-533 | one match attempt of the word–digit scan consumes at least one character and no more than remain |
| Compress.GlueStepThins | cmd/process.go:532-533 | one match attempt only drops white space |
| Compress.RunsSpec | cmd/process.go:532 | the `\w+`, `\s+` and `\d+` runs the scan takes are the longest prefixes of their kind |
| Compress.JoinWordDigitsThins | cmd/process.go:532-533 | joining words to following digits only drops white space |
| Compress.JoinWordDigitsGluesOnly | cmd/process.go:532-533 | the only text the scan deletes is whole runs of white space, each with a word character before it and a digit after it; every other character is kept, in order |
| Compress.WordGapNumberGlued | cmd/process.go:532-533 | a word, a run of white space and a number become the word directly followed by the number |
| Compress.JoinWordDigitsOnePass | cmd/process.go:532-533 | example: the scan makes one leftmost pass: `a 1 2` becomes `a1 2`, and only a second pass gives `a12` |
| Compress.FirstPassGluesOnce | cmd/process.go:532-533 | example: in `a 1 2` only the first digit is glued to the word |
| Compress.SecondPassGluesRest | cmd/process.go:532-533 | example: a second pass over `a1 2` glues the remaining digit |
| Compress.GlueLoneDigit | cmd/process.go:532-533 | example: in ` 2` the space before a digit with no word in front of it is kept |
| Compress.StripMarkersInert | cmd/process.go:536-539 | text with no `-` followed by a space passes marker stripping unchanged |
| Compress.RemoveLineComments | cmd/process.go:547-548 | removing line comments never lengthens the text |
| Compress.RemoveLineCommentsShape | cmd/process.go:547-548 | no `//` survives, and text that does not open a line comment keeps its first character |
| Compress.RemoveLineCommentsAbsent | cmd/process.go:547-548 | text without `//` is unchanged |
| Compress.LineCommentDropped | cmd/process.go:547-548 | a `//` and the rest of its line disappear, and the line break stays |
| Compress.CleanPrefixKept | cmd/process.go:547-548 | text with no `//` that does not end in `/` is kept unchanged in front of what follows |
| Compress.RemoveLineCommentsCut | cmd/process.go:547-548 | a line comment is removed from its `//` to the end of its line, keeping the text before it |
| Compress.CloseEnd | cmd/process.go:551 | a match ends inside the text, past its two-character closer |
| Compress.CloseEndSpec | cmd/process.go:551 | the lazy match ends just past the first star-slash, and fails exactly when there is none |
| Compress.RemoveBlockCommentsAbsent | cmd/process.go:551-552 | text without slash-star is unchanged |
| Compress.BlockCommentDropped | cmd/process.go:551-552 | a block comment goes up to and including its first star-slash |
| Compress.CleanBlockPrefixKept | cmd/process.go:551-552 | text that opens no block comment, alone or with what follows, is kept unchanged in front of it |
| Compress.RemoveBlockCommentsCut | cmd/process.go:551-552 | a block comment is removed up to its first star-slash, keeping the text before it |
| Compress.RemoveCommentsAbsent | cmd/process.go:545-555 | text that opens no comment is unchanged |
| Compress.LineCommentInsideBlock | cmd/process.go:545-555 | example: a `//` inside a block comment removes the closing star-slash first, so the block comment stays open and is kept |
| Compress.SquashEachSymbol | cmd/process.go:522-530 | the loop over the symbol list applies the three replacements for each symbol in turn |
| Compress.CompressedShape | cmd/process.go:511-542 | compressed content is collapsed, no longer than the input, obtained from the collapsed text only by dropping spaces, and has no space next to any symbol |
| Compress.CompressedIgnoresVerbose | cmd/process.go:536-539 | the compressed content is the same in verbose and plain mode |
| Compress.CompressContent | cmd/process.go:511-542 | the loop over the symbols computes the compressed content, which is collapsed, no longer, and has no space next to any symbol |
| Order.Sort | cmd/process.go:440-441 | sorting yields a sorted permutation of the list |
| Order.SortIsTheSortedPermutation | cmd/process.go:440-441 | any sorted permutation of a list is its sorted form, so the summary order is determined by the list's contents |
| Glob.StarSuffixMatches | cmd/process.go:423 | `*` followed by literal characters matches exactly the names that end with them and have no separator before them |
| Glob.LiteralMatchesItself | cmd/process.go:285-286 | a pattern of plain characters matches only itself |
| Configuration.DefaultConfig | cmd/config.go:27-82 | the defaults are the current directory, `corpus-out.txt`, non-nil glob lists, and every flag off |
| Configuration.DefaultGlobs | cmd/config.go:35-80 | example: the defaults include `**/*.go` and exclude `**/.git/**`, with 27 include and 15 exclude globs |
| Configuration.SliceEqual | cmd/config.go:124-134 | two slices are equal exactly when their lengths and their elements agree, nil equalling empty |
| Configuration.MergeConfigCases | cmd/config.go:137-176 | with no automatic configuration the given one is returned; an empty one is replaced by the automatic one, keeping a given input directory; otherwise empty strings and empty glob lists are filled from the automatic one and all flags are the given ones |
| Configuration.EmptinessIgnoresInputDir | cmd/config.go:179-188 | emptiness does not depend on the input directory |
| Configuration.MergeKeepsGivenValues | cmd/config.go:156-175 | a non-empty configuration keeps each non-empty value it has, and stays non-empty |
| Configuration.MergeIdempotent | cmd/config.go:137-176 | merging twice with the same automatic configuration equals merging once |
| Configuration.MergeExamples | cmd/config.go:137-176 | example: the merge reproduces the three cases the configuration tests check |
| Configuration.ApplyDefaultsFields | cmd/config.go:191-220 | an empty input directory becomes `.`, the output gets a name, nil glob lists become the defaults while present ones (even empty) are kept, and the flags are unchanged |
| Configuration.OutputNamesAgree | cmd/config.go:199-209 | `ApplyDefaults` names the output exactly as `ProcessDirectory` does |
| Configuration.ApplyDefaultsIdempotent | cmd/config.go:191-220 | applying the defaults twice equals applying them once |
| Configuration.ApplyDefaultsExamples | cmd/config.go:191-220 | example: filling in the defaults reproduces the three cases the configuration tests check |

## Left out

- File-system I/O is replaced by parameters.
  - `os.Stat`, `os.MkdirAll` and `os.Create` become the fields of `FileSystem`.
  - `filepath.Walk` becomes the entry list it visits, in walk order.
  - `ioutil.ReadFile` becomes an optional content per file.
- Process.FileStep does not model write errors, nor the abort of the walk on a failed write.
  Writes to the output, the buffer and the encoders, and their close errors, are taken to
  succeed.
- `filepath.Walk` stopping on an error returned by the callback is not modelled, because no
  modelled step returns one.
- The gzip and base64 encoders are left out. A run records the writer chain and its close
  order, and the bytes written into the head of the chain, not the encoded bytes.
- `filepath.Clean` and `filepath.Rel` are the identity. Paths are taken as already clean
  and relative to the input directory.
  - `isValidFile` takes `Ext` and `Base` of the relative path, not the full path.
  - `Process.ErrorMessage` shows the input directory before cleaning.
- `filepath.Match` covers literals, `*` and `?` only. A pattern with `[` or `\` is treated as
  malformed, and so is skipped.
- Go's map iteration order in `validateConfig` is unspecified. `Process.NormalizedExtensions`
  fixes it to first-occurrence order. Only set membership of the list matters to the file
  filter.
- The byte total is a natural number. The `int64` overflow of `TotalBytes` is not modelled.
- Strings are sequences of characters, one per byte.
  - `ToLower` folds ASCII only.
  - Text.IsSpace covers the six ASCII white-space bytes only. Go's `strings.Fields` and
    `strings.TrimSpace` also split on multi-byte UTF-8 encodings of Unicode white space
    (U+0085, U+00A0, U+2000 to U+200A and others); the model keeps those bytes as text.
  - The regular expressions use RE2's ASCII classes: `\w`, `\s` (without `\v`) and `\d`.
- Timing (`StartTime`, `EndTime`) is left out. The processing time reaches the summary as an
  already formatted string.
- `Summary.TotalFiles` is never set by the source and is not modelled. The printed total is
  computed from the list lengths.
- Messages printed to standard output and standard error are left out.
- `LoadConfigFromFile`, the command-line layer (`cmd/root.go`), the helpers and the tests are
  not part of this model. The test vectors for `MergeConfig` and `ApplyDefaults` are restated
  as lemmas.
