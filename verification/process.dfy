/**
 * The packer's processing core: the run configuration, the output-name rule, extension
 * normalisation, which directories are descended into and which files are packed, the
 * per-file ledger kept during the directory walk, the verbose summary, and the shape of
 * the writer chain.
 */
module Process {
  import opened Wrappers
  import opened Text
  import opened Glob
  import opened Order
  import opened Compress

  // ---------------------------------------------------------------- configuration

  /**
   * The run configuration. `validExtensions` keeps Go's distinction between a nil slice
   * (replaced by the defaults) and an empty one (kept, so that no file is accepted).
   */
  datatype Config = Config(
    inputDir: string,
    outputFile: string,
    validExtensions: StringSlice,
    validDirs: seq<string>,
    ignorePatterns: seq<string>,
    ignoreDirs: seq<string>,
    verbose: bool,
    compress: bool,
    aggressiveCompress: bool,
    gzip: bool,
    base64: bool)

  const DefaultOutput: string := "corpus-out.txt"

  const DefaultExtensions: seq<string> := [
    ".go", ".js", ".ts", ".css", ".py", ".java", ".cpp", ".c", ".h", ".hpp", ".rb", ".php",
    ".cs", ".swift", ".kt", ".md", ".tsx", ".jsx", ".ts", ".tsx", ".jsx", ".json", ".yaml",
    ".yml", ".toml", ".txt", ".xml", ".docx", ".pptx", ".xlsx", ".xls", ".doc", ".ppt", ".pdf"]

  const DefaultIgnoreDirs: seq<string> := [
    "**/vendor", "**/.git", "**/.github", "**/node_modules", "**/__pycache__", "**/bin",
    "**/obj", "**/build", "**/dist", "**/.vitepress", "**/.idea", "**/.vscode"]

  const DefaultIgnorePatterns: seq<string> := [
    "*_test.go", "*.test.*", "*.spec.*", "*.min.*", "*.map", "*.generated.*"]

  /** The defaults: the current directory, corpus-out.txt, and the lists above. */
  function DefaultConfig(): (c: Config)
    ensures c.inputDir == "." && c.outputFile == DefaultOutput
    ensures !c.verbose && !c.compress && !c.aggressiveCompress && !c.gzip && !c.base64
    ensures c.validExtensions.Slice? && c.validDirs == []
  {
    Config(".", DefaultOutput, Slice(DefaultExtensions), [], DefaultIgnorePatterns,
           DefaultIgnoreDirs, false, false, false, false, false)
  }

  // ---------------------------------------------------------------- output name

  /** The output file name ProcessDirectory settles on. */
  function OutputName(name: string, gzip: bool): string {
    if name == "" || name == DefaultOutput then
      (if gzip then DefaultOutput + ".gz" else DefaultOutput)
    else if gzip && !HasSuffix(name, ".gz") && !Contains(name, ".gz.") then name + ".gz"
    else name
  }

  /** The rule case by case: defaults, the appended suffix, and names left alone. */
  lemma OutputNameCases(name: string, gzip: bool)
    ensures name == "" || name == DefaultOutput ==>
      OutputName(name, gzip) == if gzip then "corpus-out.txt.gz" else "corpus-out.txt"
    ensures name != "" && name != DefaultOutput ==>
      (OutputName(name, gzip) == name + ".gz"
       <==> gzip && !HasSuffix(name, ".gz") && !Contains(name, ".gz."))
    ensures name != "" && name != DefaultOutput && OutputName(name, gzip) != name + ".gz" ==>
      OutputName(name, gzip) == name
  {
    assert DefaultOutput + ".gz" == "corpus-out.txt.gz";
    if name != "" && name != DefaultOutput && OutputName(name, gzip) == name + ".gz" {
      assert |name + ".gz"| != |name|;
    }
  }

  /** With gzip on, the name always carries ".gz"; and a ".gz" is never added twice. */
  lemma OutputNameGzip(name: string, gzip: bool)
    ensures gzip ==> HasSuffix(OutputName(name, gzip), ".gz") || Contains(OutputName(name, gzip), ".gz.")
    ensures HasSuffix(OutputName(name, gzip), ".gz.gz") ==> HasSuffix(name, ".gz.gz")
  {
    var r := OutputName(name, gzip);
    if r == name + ".gz" && HasSuffix(r, ".gz.gz") {
      assert r[|r| - 6..|r| - 3] == name[|name| - 3..];
    }
    if gzip && (name == "" || name == DefaultOutput) {
      assert r == "corpus-out.txt.gz";
      assert r[|r| - 3..] == ".gz";
    }
    if gzip && r == name + ".gz" {
      assert r[|r| - 3..] == ".gz";
    }
  }

  /** Applying the rule to its own result changes nothing. */
  lemma OutputNameIdempotent(name: string, gzip: bool)
    ensures OutputName(OutputName(name, gzip), gzip) == OutputName(name, gzip)
  {
    var r := OutputName(name, gzip);
    OutputNameGzip(name, gzip);
    if gzip && r != DefaultOutput {
      assert r != "" && r != DefaultOutput;
    }
  }

  // ---------------------------------------------------------------- extensions

  /** One extension lower-cased and given a leading dot. */
  function NormalizeExt(ext: string): (r: string)
    ensures IsLowerCase(r) && HasPrefix(r, ".")
    ensures |r| == |ext| || (|r| == |ext| + 1 && r[1..] == ToLower(ext))
  {
    var lower := ToLower(ext);
    if HasPrefix(lower, ".") then lower else "." + lower
  }

  /**
   * The normalised extension list, keeping the first occurrence of each. (Go builds a map
   * and reads its keys back in an unspecified order; this model fixes that order.)
   */
  function NormalizedExtensions(exts: seq<string>): seq<string>
    decreases |exts|
  {
    if exts == [] then []
    else
      var prev := NormalizedExtensions(exts[..|exts| - 1]);
      var e := NormalizeExt(exts[|exts| - 1]);
      if e in prev then prev else prev + [e]
  }

  /**
   * The normalised list holds each normalised extension once, and nothing else: a set of
   * lower-case, dot-prefixed extensions, as the map in validateConfig is.
   */
  lemma {:induction false} NormalizedExtensionsSpec(exts: seq<string>)
    ensures var r := NormalizedExtensions(exts);
      NoDuplicates(r)
      && (forall i :: 0 <= i < |r| ==> IsLowerCase(r[i]) && HasPrefix(r[i], "."))
      && (forall e :: e in exts ==> NormalizeExt(e) in r)
      && (forall x :: x in r ==> exists e :: e in exts && NormalizeExt(e) == x)
    decreases |exts|
  {
    if exts != [] {
      var init, last := exts[..|exts| - 1], exts[|exts| - 1];
      assert exts == init + [last];
      NormalizedExtensionsSpec(init);
      var prev := NormalizedExtensions(init);
      var e := NormalizeExt(last);
      var r := NormalizedExtensions(exts);
      assert r == if e in prev then prev else prev + [e];
      forall x | x in r ensures exists d :: d in exts && NormalizeExt(d) == x {
        if x in prev {
          var d :| d in init && NormalizeExt(d) == x;
          assert d in exts;
        } else {
          assert x == e && last in exts;
        }
      }
    }
  }

  /** The extension normalisation loop of validateConfig. */
  method NormalizeExtensions(exts: seq<string>) returns (r: seq<string>)
    ensures r == NormalizedExtensions(exts)
    ensures NoDuplicates(r)
    ensures forall i :: 0 <= i < |r| ==> IsLowerCase(r[i]) && HasPrefix(r[i], ".")
  {
    var validExts: set<string> := {};
    r := [];
    var i := 0;
    while i < |exts|
      invariant 0 <= i <= |exts|
      invariant r == NormalizedExtensions(exts[..i])
      invariant forall x :: x in validExts <==> x in r
    {
      var ext := NormalizeExt(exts[i]);
      NormalizedExtensionsStep(exts, i);
      if ext !in validExts {
        r := r + [ext];
      }
      validExts := validExts + {ext};
      i := i + 1;
    }
    assert exts[..i] == exts;
    NormalizedExtensionsSpec(exts);
  }

  lemma NormalizedExtensionsStep(exts: seq<string>, i: nat)
    requires i < |exts|
    ensures var prev := NormalizedExtensions(exts[..i]);
      NormalizedExtensions(exts[..i + 1])
      == if NormalizeExt(exts[i]) in prev then prev else prev + [NormalizeExt(exts[i])]
  {
    assert exts[..i + 1][..i] == exts[..i];
  }

  // ---------------------------------------------------------------- directories

  /** shouldIgnoreDir: some pattern, without one leading "**\/", matches the base name. */
  predicate IgnoredDir(ignoreDirs: seq<string>, relPath: string) {
    exists i :: 0 <= i < |ignoreDirs| && Matched(TrimPrefix(ignoreDirs[i], "**/"), Base(relPath))
  }

  /** isValidRootDir: some valid directory is nested (names a '/'). */
  predicate ValidRoot(validDirs: seq<string>) {
    exists i :: 0 <= i < |validDirs| && '/' in validDirs[i]
  }

  /** isValidSubDir: the directory is a valid one, an ancestor of one, or inside one. */
  predicate ValidSub(validDirs: seq<string>, dir: string) {
    exists i :: 0 <= i < |validDirs| &&
      (HasPrefix(validDirs[i], dir + "/") || HasPrefix(dir, validDirs[i] + "/") || dir == validDirs[i])
  }

  /** isValidDir */
  predicate ValidDir(validDirs: seq<string>, dir: string) {
    |validDirs| == 0 || (if dir == "." then ValidRoot(validDirs) else ValidSub(validDirs, dir))
  }

  /** processDirectory answers SkipDir. */
  predicate PrunedDir(config: Config, dir: string) {
    IgnoredDir(config.ignoreDirs, dir) || !ValidDir(config.validDirs, dir)
  }

  /** A pattern filepath.Match rejects is passed over: it neither prunes nor spares. */
  lemma BadDirPatternSkipped(ignoreDirs: seq<string>, bad: string, relPath: string)
    requires !Supported(TrimPrefix(bad, "**/"))
    ensures IgnoredDir(ignoreDirs + [bad], relPath) <==> IgnoredDir(ignoreDirs, relPath)
  {
    var all := ignoreDirs + [bad];
    if IgnoredDir(all, relPath) {
      var i :| 0 <= i < |all| && Matched(TrimPrefix(all[i], "**/"), Base(relPath));
      assert i < |ignoreDirs| && all[i] == ignoreDirs[i];
    }
    if IgnoredDir(ignoreDirs, relPath) {
      var i :| 0 <= i < |ignoreDirs| && Matched(TrimPrefix(ignoreDirs[i], "**/"), Base(relPath));
      assert all[i] == ignoreDirs[i];
    }
  }

  /** With no valid directories listed, the walk keeps every directory it does not ignore. */
  lemma NoValidDirsKeepsAll(config: Config, dir: string)
    requires config.validDirs == []
    ensures PrunedDir(config, dir) <==> IgnoredDir(config.ignoreDirs, dir)
  {
  }

  /**
   * A list of valid directories none of which is nested prunes the root itself, so the walk
   * reaches nothing, not even the listed directories.
   */
  lemma FlatValidDirsPruneRoot(config: Config)
    requires config.validDirs != []
    requires forall i :: 0 <= i < |config.validDirs| ==> '/' !in config.validDirs[i]
    ensures PrunedDir(config, ".")
  {
  }

  // ---------------------------------------------------------------- files

  /** isValidFile: a listed extension (lower-cased) and no ignore pattern on the base name. */
  predicate AcceptedFile(exts: seq<string>, ignorePatterns: seq<string>, path: string) {
    ToLower(Ext(path)) in exts
    && !exists i :: 0 <= i < |ignorePatterns| && Matched(ignorePatterns[i], Base(path))
  }

  /** A listed extension and no matching ignore pattern accept the file. */
  lemma AcceptedWhenNoneMatch(exts: seq<string>, ignorePatterns: seq<string>, path: string)
    requires ToLower(Ext(path)) in exts
    requires forall k :: 0 <= k < |ignorePatterns| ==> !Matched(ignorePatterns[k], Base(path))
    ensures AcceptedFile(exts, ignorePatterns, path)
  {
  }

  lemma MatchedMeans(pattern: string, name: string, matched: Result<bool, string>)
    requires matched == Match(pattern, name)
    ensures Matched(pattern, name) <==> matched.Success? && matched.value
  {
  }

  /** A matching ignore pattern rejects the file whatever its extension. */
  lemma IgnoreWins(exts: seq<string>, ignorePatterns: seq<string>, path: string, k: nat)
    requires k < |ignorePatterns| && Matched(ignorePatterns[k], Base(path))
    ensures !AcceptedFile(exts, ignorePatterns, path)
  {
  }

  /** A pattern filepath.Match rejects is passed over. */
  lemma BadFilePatternSkipped(exts: seq<string>, ignorePatterns: seq<string>, bad: string, path: string)
    requires !Supported(bad)
    ensures AcceptedFile(exts, ignorePatterns + [bad], path) <==> AcceptedFile(exts, ignorePatterns, path)
  {
    var all := ignorePatterns + [bad];
    if exists i :: 0 <= i < |all| && Matched(all[i], Base(path)) {
      var i :| 0 <= i < |all| && Matched(all[i], Base(path));
      assert i < |ignorePatterns| && all[i] == ignorePatterns[i];
    }
    if exists i :: 0 <= i < |ignorePatterns| && Matched(ignorePatterns[i], Base(path)) {
      var i :| 0 <= i < |ignorePatterns| && Matched(ignorePatterns[i], Base(path));
      assert all[i] == ignorePatterns[i];
    }
  }

  /** An explicitly empty extension list, unlike a nil one, accepts no file. */
  lemma EmptyExtensionsAcceptNothing(ignorePatterns: seq<string>, path: string)
    ensures !AcceptedFile(NormalizedExtensions([]), ignorePatterns, path)
  {
  }

  /** "*_test.go" matches exactly the base names that end in "_test.go". */
  lemma GoTestPatternMatches(name: string)
    requires NoSlash(name)
    ensures Matched("*_test.go", name + "_test.go")
  {
    var base := name + "_test.go";
    var lit := "_test.go";
    GoTestPatternShape();
    StarSuffixMatches(lit, base);
    assert base[|base| - |lit|..] == lit;
    assert base[..|base| - |lit|] == name;
  }

  lemma GoTestPatternShape()
    ensures "*_test.go" == ['*'] + "_test.go" && Literal("_test.go") && Supported("*_test.go")
  {
  }

  /** The default patterns skip every file whose base name ends in "_test.go", whatever the extension list. */
  lemma DefaultsSkipGoTests(exts: seq<string>, path: string, name: string)
    requires NoSlash(name) && Base(path) == name + "_test.go"
    ensures !AcceptedFile(exts, DefaultIgnorePatterns, path)
  {
    GoTestPatternMatches(name);
    assert DefaultIgnorePatterns[0] == "*_test.go";
    IgnoreWins(exts, DefaultIgnorePatterns, path, 0);
  }

  /** A Go test file in a subdirectory is skipped by default. */
  lemma NestedGoTestSkipped(exts: seq<string>, dir: string, name: string)
    requires NoSlash(name)
    ensures !AcceptedFile(exts, DefaultIgnorePatterns, dir + "/" + name + "_test.go")
  {
    var base := name + "_test.go";
    assert dir + "/" + name + "_test.go" == dir + "/" + base;
    BaseOfChild(dir, base);
    DefaultsSkipGoTests(exts, dir + "/" + base, name);
  }

  /** A Go test file directly in the input directory is skipped by default. */
  lemma RootGoTestSkipped(exts: seq<string>, name: string)
    requires NoSlash(name)
    ensures !AcceptedFile(exts, DefaultIgnorePatterns, name + "_test.go")
  {
    var base := name + "_test.go";
    assert Base(base) == base;
    DefaultsSkipGoTests(exts, base, name);
  }

  // ---------------------------------------------------------------- the per-file ledger

  /** What filepath.Walk hands to processPath: an access error, a directory, or a file. */
  datatype Kind = Unreadable | Directory | RegularFile(content: Option<string>)

  /** One walked path, relative to the input directory ("." for the root), in walk order. */
  datatype Entry = Entry(relPath: string, kind: Kind)

  /**
   * The state the walk builds up: the summary's processed and skipped lists and byte total,
   * the set of paths already packed, what went to the output writer, and the verbose buffer.
   */
  datatype Ledger = Ledger(
    processed: seq<string>,
    skipped: seq<string>,
    totalBytes: nat,
    marked: set<string>,
    out: string,
    buffer: string)

  const EmptyLedger := Ledger([], [], 0, {}, "", "")

  /** Each packed path appears once in the processed list, and exactly those paths are marked. */
  predicate LedgerInv(l: Ledger) {
    NoDuplicates(l.processed) && l.marked == set p | p in l.processed
  }

  /** The text around a file's path in its separators. */
  const StartLabel: string := "--- START OF FILE: "
  const EndLabel: string := "--- END OF FILE: "
  const LabelEnd: string := " ---"

  function StartSeparator(relPath: string): string {
    StartLabel + relPath + LabelEnd + "\n"
  }

  function EndSeparator(relPath: string): string {
    "\n" + EndLabel + relPath + LabelEnd + "\n\n"
  }

  /** Text as the processor writes it: compressed when compression is on. */
  function Compressible(config: Config, text: string): string {
    if config.compress then Compressed(text, config.aggressiveCompress, config.verbose) else text
  }

  /** The separators processFile writes, trimmed and padded with one space when compressing. */
  function StartMark(config: Config, relPath: string): string {
    if config.compress then TrimSpace(StartSeparator(relPath)) + " " else StartSeparator(relPath)
  }

  function EndMark(config: Config, relPath: string): string {
    if config.compress then " " + TrimSpace(EndSeparator(relPath)) + " " else EndSeparator(relPath)
  }

  /** What processFile writes for a packed file: start separator, content, end separator. */
  function Block(config: Config, relPath: string, content: string): string {
    StartMark(config, relPath) + Compressible(config, content) + EndMark(config, relPath)
  }

  /** processFile on the ledger, given what reading the file gave (None for a read error). */
  function FileStep(config: Config, l: Ledger, relPath: string, content: Option<string>): (r: Ledger)
    ensures |r.processed| + |r.skipped| == |l.processed| + |l.skipped| + 1
    ensures config.verbose ==> r.out == l.out
    ensures !config.verbose ==> r.buffer == l.buffer
    ensures (r.processed == l.processed + [relPath] && r.marked == l.marked + {relPath})
         || (r.processed == l.processed && r.marked == l.marked)
  {
    if !AcceptedFile(config.validExtensions.Items(), config.ignorePatterns, relPath) then
      l.(skipped := l.skipped + [relPath])
    else if content.None? then
      l.(skipped := l.skipped + [relPath + " (read error)"])
    else
      var b := Block(config, relPath, content.value);
      l.(processed := l.processed + [relPath],
         totalBytes := l.totalBytes + |content.value|,
         marked := l.marked + {relPath},
         out := if config.verbose then l.out else l.out + b,
         buffer := if config.verbose then l.buffer + b else l.buffer)
  }

  /** processFile only ever appends to the output and to the buffer. */
  lemma FileStepAppends(config: Config, l: Ledger, relPath: string, content: Option<string>)
    ensures var r := FileStep(config, l, relPath, content);
      HasPrefix(r.out, l.out) && HasPrefix(r.buffer, l.buffer)
  {
    var r := FileStep(config, l, relPath, content);
    if AcceptedFile(config.validExtensions.Items(), config.ignorePatterns, relPath) && content.Some? {
      var b := Block(config, relPath, content.value);
      if config.verbose {
        PrefixOfAppend(l.buffer, b);
        assert l.out[..|l.out|] == l.out;
      } else {
        PrefixOfAppend(l.out, b);
        assert l.buffer[..|l.buffer|] == l.buffer;
      }
    } else {
      assert r.out == l.out && r.buffer == l.buffer;
      assert l.out[..|l.out|] == l.out && l.buffer[..|l.buffer|] == l.buffer;
    }
  }

  /** The ledger after packing an accepted, readable file. */
  lemma FileStepPacks(config: Config, l: Ledger, relPath: string, content: string)
    requires AcceptedFile(config.validExtensions.Items(), config.ignorePatterns, relPath)
    ensures var b := Block(config, relPath, content);
      FileStep(config, l, relPath, Some(content))
      == Ledger(l.processed + [relPath], l.skipped, l.totalBytes + |content|, l.marked + {relPath},
                if config.verbose then l.out else l.out + b,
                if config.verbose then l.buffer + b else l.buffer)
  {
  }

  /** The ledger after a rejected or unreadable file: only the skipped list grows. */
  lemma FileStepSkips(config: Config, l: Ledger, relPath: string, content: Option<string>)
    requires !AcceptedFile(config.validExtensions.Items(), config.ignorePatterns, relPath) || content.None?
    ensures FileStep(config, l, relPath, content)
      == l.(skipped := l.skipped + [if AcceptedFile(config.validExtensions.Items(), config.ignorePatterns, relPath)
                                   then relPath + " (read error)" else relPath])
  {
  }

  /** processPath on the ledger: the new ledger, and whether the walk must skip the subtree. */
  function PathStep(config: Config, l: Ledger, e: Entry): (r: (Ledger, bool))
    ensures r.1 <==> e.kind.Directory? && e.relPath !in l.marked && PrunedDir(config, e.relPath)
    ensures !e.kind.RegularFile? || e.relPath in l.marked ==> r.0 == l
    ensures e.kind.RegularFile? && e.relPath !in l.marked ==> r.0 == FileStep(config, l, e.relPath, e.kind.content)
  {
    if e.kind.Unreadable? then (l, false)
    else if e.relPath in l.marked then (l, false)
    else if e.kind.Directory? then (l, PrunedDir(config, e.relPath))
    else (FileStep(config, l, e.relPath, e.kind.content), false)
  }

  /** filepath.Walk's SkipDir: the entries below `dir` that follow it are not visited. */
  predicate Under(path: string, dir: string) {
    dir == "." || HasPrefix(path, dir + "/")
  }

  function DropUnder(entries: seq<Entry>, dir: string): (r: seq<Entry>)
    ensures |r| <= |entries| && r == entries[|entries| - |r|..]
    ensures r == [] || !Under(r[0].relPath, dir)
    ensures forall i :: 0 <= i < |entries| - |r| ==> Under(entries[i].relPath, dir)
    decreases |entries|
  {
    if entries != [] && Under(entries[0].relPath, dir) then DropUnder(entries[1..], dir) else entries
  }

  /** The whole walk over entries in walk order. */
  function WalkFrom(config: Config, l: Ledger, entries: seq<Entry>): Ledger
    decreases |entries|
  {
    if entries == [] then l
    else
      var (l', skip) := PathStep(config, l, entries[0]);
      if skip then WalkFrom(config, l', DropUnder(entries[1..], entries[0].relPath))
      else WalkFrom(config, l', entries[1..])
  }

  /** Packing a file not yet marked keeps every path in the processed list at most once. */
  lemma FileStepKeepsInv(config: Config, l: Ledger, relPath: string, content: Option<string>)
    requires LedgerInv(l) && relPath !in l.marked
    ensures LedgerInv(FileStep(config, l, relPath, content))
  {
    AppendFresh(l.processed, relPath);
  }

  lemma AppendFresh(ps: seq<string>, x: string)
    requires NoDuplicates(ps) && x !in ps
    ensures NoDuplicates(ps + [x])
    ensures (set p | p in ps + [x]) == (set p | p in ps) + {x}
  {
  }

  /** Every path is packed at most once over a whole walk. */
  lemma {:induction false} WalkKeepsInv(config: Config, l: Ledger, entries: seq<Entry>)
    requires LedgerInv(l)
    ensures LedgerInv(WalkFrom(config, l, entries))
    decreases |entries|
  {
    if entries != [] {
      var e := entries[0];
      var (l', skip) := PathStep(config, l, e);
      if e.kind.RegularFile? && e.relPath !in l.marked {
        FileStepKeepsInv(config, l, e.relPath, e.kind.content);
      }
      if skip {
        WalkKeepsInv(config, l', DropUnder(entries[1..], e.relPath));
      } else {
        WalkKeepsInv(config, l', entries[1..]);
      }
    }
  }

  /**
   * In verbose mode the walk writes nothing to the output (all goes to the buffer);
   * otherwise it leaves the buffer alone. Either way it only appends.
   */
  lemma {:induction false} WalkSinks(config: Config, l: Ledger, entries: seq<Entry>)
    ensures var r := WalkFrom(config, l, entries);
      (config.verbose ==> r.out == l.out) && (!config.verbose ==> r.buffer == l.buffer)
      && HasPrefix(r.out, l.out) && HasPrefix(r.buffer, l.buffer)
    decreases |entries|
  {
    if entries != [] {
      var (l', skip) := PathStep(config, l, entries[0]);
      StepSinks(config, l, entries[0]);
      var rest := if skip then DropUnder(entries[1..], entries[0].relPath) else entries[1..];
      WalkSinks(config, l', rest);
      var r := WalkFrom(config, l', rest);
      PrefixTransitive(l.out, l'.out, r.out);
      PrefixTransitive(l.buffer, l'.buffer, r.buffer);
    }
  }

  /** One walk step keeps to its sink and only appends. */
  lemma StepSinks(config: Config, l: Ledger, e: Entry)
    ensures var r := PathStep(config, l, e).0;
      (config.verbose ==> r.out == l.out) && (!config.verbose ==> r.buffer == l.buffer)
      && HasPrefix(r.out, l.out) && HasPrefix(r.buffer, l.buffer)
  {
    if e.kind.RegularFile? && e.relPath !in l.marked {
      FileStepAppends(config, l, e.relPath, e.kind.content);
    } else {
      assert l.out[..|l.out|] == l.out && l.buffer[..|l.buffer|] == l.buffer;
    }
  }

  /** Where packed blocks go: the verbose buffer in verbose mode, the output otherwise. */
  function BlockSink(config: Config, l: Ledger): string {
    if config.verbose then l.buffer else l.out
  }

  /** The file one step packs, with its content; empty when the step packs nothing. */
  function StepPacked(config: Config, l: Ledger, e: Entry): seq<(string, string)> {
    if e.kind.RegularFile? && e.relPath !in l.marked && e.kind.content.Some?
       && AcceptedFile(config.validExtensions.Items(), config.ignorePatterns, e.relPath)
    then [(e.relPath, e.kind.content.value)]
    else []
  }

  /** The files a walk packs, in the order it packs them, with their contents. */
  function WalkPacked(config: Config, l: Ledger, entries: seq<Entry>): seq<(string, string)>
    decreases |entries|
  {
    if entries == [] then []
    else
      var (l', skip) := PathStep(config, l, entries[0]);
      StepPacked(config, l, entries[0])
        + WalkPacked(config, l', if skip then DropUnder(entries[1..], entries[0].relPath) else entries[1..])
  }

  /** The blocks of the given files, one after another. */
  function Blocks(config: Config, packed: seq<(string, string)>): string
    decreases |packed|
  {
    if packed == [] then "" else Block(config, packed[0].0, packed[0].1) + Blocks(config, packed[1..])
  }

  /** The paths of the given files. */
  function Paths(packed: seq<(string, string)>): seq<string>
    decreases |packed|
  {
    if packed == [] then [] else [packed[0].0] + Paths(packed[1..])
  }

  lemma {:induction false} BlocksAppend(config: Config, a: seq<(string, string)>, b: seq<(string, string)>)
    ensures Blocks(config, a + b) == Blocks(config, a) + Blocks(config, b)
    decreases |a|
  {
    if a == [] {
      assert a + b == b;
    } else {
      var head := Block(config, a[0].0, a[0].1);
      assert (a + b)[0] == a[0] && (a + b)[1..] == a[1..] + b;
      BlocksAppend(config, a[1..], b);
      AppendAssoc(head, Blocks(config, a[1..]), Blocks(config, b));
    }
  }

  lemma {:induction false} PathsAppend(a: seq<(string, string)>, b: seq<(string, string)>)
    ensures Paths(a + b) == Paths(a) + Paths(b)
    decreases |a|
  {
    if a == [] {
      assert a + b == b;
    } else {
      assert (a + b)[0] == a[0] && (a + b)[1..] == a[1..] + b;
      PathsAppend(a[1..], b);
      AppendAssoc([a[0].0], Paths(a[1..]), Paths(b));
    }
  }

  /** One step appends to the sink the block of the file it packs, and lists that file. */
  lemma StepWrites(config: Config, l: Ledger, e: Entry)
    ensures var r := PathStep(config, l, e).0;
      var packed := StepPacked(config, l, e);
      BlockSink(config, r) == BlockSink(config, l) + Blocks(config, packed)
      && r.processed == l.processed + Paths(packed)
  {
    var r := PathStep(config, l, e).0;
    var packed := StepPacked(config, l, e);
    if packed == [] {
      if e.kind.RegularFile? && e.relPath !in l.marked {
        FileStepSkips(config, l, e.relPath, e.kind.content);
      }
      assert r.out == l.out && r.buffer == l.buffer && r.processed == l.processed;
      assert BlockSink(config, l) + "" == BlockSink(config, l) && l.processed + [] == l.processed;
    } else {
      var content := e.kind.content.value;
      var b := Block(config, e.relPath, content);
      FileStepPacks(config, l, e.relPath, content);
      assert r.processed == l.processed + [e.relPath];
      assert BlockSink(config, r) == BlockSink(config, l) + b;
      assert Blocks(config, packed) == b + "" == b;
      assert Paths(packed) == [e.relPath] + [] == [e.relPath];
    }
  }

  /**
   * The walk appends to the sink exactly the blocks of the files it packs, in the order it
   * packs them, and adds exactly those files to the processed list.
   */
  lemma {:induction false} WalkWritesBlocks(config: Config, l: Ledger, entries: seq<Entry>)
    ensures var r := WalkFrom(config, l, entries);
      var packed := WalkPacked(config, l, entries);
      BlockSink(config, r) == BlockSink(config, l) + Blocks(config, packed)
      && r.processed == l.processed + Paths(packed)
    decreases |entries|
  {
    if entries == [] {
      assert BlockSink(config, l) + "" == BlockSink(config, l) && l.processed + [] == l.processed;
    } else {
      var e := entries[0];
      var (l', skip) := PathStep(config, l, e);
      var rest := if skip then DropUnder(entries[1..], e.relPath) else entries[1..];
      var here, later := StepPacked(config, l, e), WalkPacked(config, l', rest);
      var r := WalkFrom(config, l', rest);
      assert WalkFrom(config, l, entries) == r;
      assert WalkPacked(config, l, entries) == here + later;
      StepWrites(config, l, e);
      WalkWritesBlocks(config, l', rest);
      BlocksAppend(config, here, later);
      PathsAppend(here, later);
      AppendAssoc(BlockSink(config, l), Blocks(config, here), Blocks(config, later));
      AppendAssoc(l.processed, Paths(here), Paths(later));
    }
  }

  /**
   * A walk from the empty ledger writes the blocks of the files it packs and nothing else,
   * and no file's block is written twice.
   */
  lemma WalkPacksEachOnce(config: Config, entries: seq<Entry>)
    ensures var r := WalkFrom(config, EmptyLedger, entries);
      var packed := WalkPacked(config, EmptyLedger, entries);
      BlockSink(config, r) == Blocks(config, packed) && r.processed == Paths(packed)
      && NoDuplicates(Paths(packed))
  {
    WalkWritesBlocks(config, EmptyLedger, entries);
    WalkKeepsInv(config, EmptyLedger, entries);
    var packed := WalkPacked(config, EmptyLedger, entries);
    assert "" + Blocks(config, packed) == Blocks(config, packed);
    assert [] + Paths(packed) == Paths(packed);
  }

  /** A pruned directory takes its whole subtree with it: the walk goes on after it. */
  lemma PrunedSubtreeVanishes(config: Config, l: Ledger, dir: string, below: seq<Entry>, rest: seq<Entry>)
    requires dir !in l.marked && PrunedDir(config, dir)
    requires forall i :: 0 <= i < |below| ==> Under(below[i].relPath, dir)
    requires rest == [] || !Under(rest[0].relPath, dir)
    ensures WalkFrom(config, l, [Entry(dir, Directory)] + (below + rest)) == WalkFrom(config, l, rest)
  {
    WalkPrunes(config, l, Entry(dir, Directory), below + rest);
    DropPastSubtree(below, rest, dir);
  }

  /** One walk step at a pruned directory: go on after the entries under it. */
  lemma WalkPrunes(config: Config, l: Ledger, e: Entry, rest: seq<Entry>)
    requires e.kind.Directory? && e.relPath !in l.marked && PrunedDir(config, e.relPath)
    ensures WalkFrom(config, l, [e] + rest) == WalkFrom(config, l, DropUnder(rest, e.relPath))
  {
    assert ([e] + rest)[0] == e && ([e] + rest)[1..] == rest;
  }

  lemma {:induction false} DropPastSubtree(below: seq<Entry>, rest: seq<Entry>, dir: string)
    requires forall i :: 0 <= i < |below| ==> Under(below[i].relPath, dir)
    requires rest == [] || !Under(rest[0].relPath, dir)
    ensures DropUnder(below + rest, dir) == rest
    decreases |below|
  {
    if below == [] {
      assert below + rest == rest;
    } else {
      assert (below + rest)[0] == below[0];
      assert (below + rest)[1..] == below[1..] + rest;
      DropPastSubtree(below[1..], rest, dir);
    }
  }

  /** When the root is pruned the walk packs and skips nothing. */
  lemma PrunedRootWalksNothing(config: Config, l: Ledger, rest: seq<Entry>)
    requires "." !in l.marked && PrunedDir(config, ".")
    ensures WalkFrom(config, l, [Entry(".", Directory)] + rest) == l
  {
    WalkPrunes(config, l, Entry(".", Directory), rest);
    assert DropUnder(rest, ".") == [];
  }

  /** A path already packed is passed over however often the walk meets it again. */
  lemma RevisitIgnored(config: Config, l: Ledger, e: Entry, rest: seq<Entry>)
    requires e.relPath in l.marked
    ensures WalkFrom(config, l, [e] + rest) == WalkFrom(config, l, rest)
  {
    assert ([e] + rest)[1..] == rest;
  }

  /**
   * Two ledgers that agree on everything the summary records, where the verbose one holds
   * in its buffer what the plain one has written to its output.
   */
  predicate Mirror(verbose: Ledger, plain: Ledger) {
    verbose.processed == plain.processed && verbose.skipped == plain.skipped
    && verbose.totalBytes == plain.totalBytes && verbose.marked == plain.marked
    && verbose.buffer == plain.out
  }

  /** Compression does not look at the verbose flag, so neither does a packed block. */
  lemma BlockIgnoresVerbose(config: Config, relPath: string, content: string)
    ensures Block(config.(verbose := true), relPath, content) == Block(config.(verbose := false), relPath, content)
  {
    CompressedIgnoresVerbose(content, config.aggressiveCompress);
  }

  lemma FileStepMirrors(config: Config, v: Ledger, p: Ledger, relPath: string, content: Option<string>)
    requires Mirror(v, p)
    ensures Mirror(FileStep(config.(verbose := true), v, relPath, content),
                   FileStep(config.(verbose := false), p, relPath, content))
  {
    if content.Some? {
      BlockIgnoresVerbose(config, relPath, content.value);
    }
  }

  /**
   * Verbose mode walks exactly as plain mode does, and what it buffers is what plain mode
   * writes.
   */
  lemma {:induction false} WalkMirrors(config: Config, v: Ledger, p: Ledger, entries: seq<Entry>)
    requires Mirror(v, p)
    ensures Mirror(WalkFrom(config.(verbose := true), v, entries),
                   WalkFrom(config.(verbose := false), p, entries))
    decreases |entries|
  {
    if entries != [] {
      var cv, cp := config.(verbose := true), config.(verbose := false);
      var e := entries[0];
      var (v', skipV) := PathStep(cv, v, e);
      var (p', skipP) := PathStep(cp, p, e);
      assert PrunedDir(cv, e.relPath) == PrunedDir(cp, e.relPath);
      if e.kind.RegularFile? && e.relPath !in v.marked {
        FileStepMirrors(config, v, p, e.relPath, e.kind.content);
      }
      if skipV {
        WalkMirrors(config, v', p', DropUnder(entries[1..], e.relPath));
      } else {
        WalkMirrors(config, v', p', entries[1..]);
      }
    }
  }

  /** The number of regular files among the entries. */
  function FileCount(entries: seq<Entry>): (n: nat)
    ensures n <= |entries|
  {
    if entries == [] then 0
    else (if entries[0].kind.RegularFile? then 1 else 0) + FileCount(entries[1..])
  }

  /**
   * When no directory is pruned and every path occurs once, every regular file the walk
   * meets is counted once, as processed or as skipped: the summary's "Total Files" is the
   * number of files.
   */
  lemma {:induction false} WalkCountsEveryFile(config: Config, l: Ledger, entries: seq<Entry>)
    requires forall i :: 0 <= i < |entries| && entries[i].kind.Directory? ==> !PrunedDir(config, entries[i].relPath)
    requires forall i, j :: 0 <= i < j < |entries| ==> entries[i].relPath != entries[j].relPath
    requires forall i :: 0 <= i < |entries| ==> entries[i].relPath !in l.marked
    ensures var r := WalkFrom(config, l, entries);
      |r.processed| + |r.skipped| == |l.processed| + |l.skipped| + FileCount(entries)
    decreases |entries|
  {
    if entries != [] {
      var e := entries[0];
      var (l', skip) := PathStep(config, l, e);
      assert !skip;
      assert forall i :: 0 <= i < |entries| - 1 ==> entries[1..][i] == entries[i + 1];
      forall i | 0 <= i < |entries| - 1
        ensures entries[1..][i].relPath !in l'.marked
      {
        assert entries[1..][i].relPath != e.relPath;
      }
      WalkCountsEveryFile(config, l', entries[1..]);
    }
  }

  // ---------------------------------------------------------------- the summary

  /** The summary writeSummary prints, for lists already sorted. */
  function SummaryText(duration: string, processed: seq<string>, skipped: seq<string>, totalBytes: nat): string {
    "--- CORPUS PACKER SUMMARY ---\nProcessing Time: " + duration
    + "\nTotal Files: " + Decimal(|processed| + |skipped|)
    + "\nTotal Files Processed: " + Decimal(|processed|)
    + "\nTotal Files Skipped: " + Decimal(|skipped|)
    + "\nTotal Bytes Processed: " + Decimal(totalBytes)
    + "\n\nProcessed Files:\n" + Join(processed, "\n")
    + "\n\nSkipped Files:\n" + Join(skipped, "\n")
    + "\n\n--- END OF SUMMARY ---\n\n"
  }

  /** What writeSummary writes for a ledger: the summary of its sorted lists, compressed if asked. */
  function SummaryOutput(config: Config, l: Ledger, duration: string): string {
    Compressible(config, SummaryText(duration, Sort(l.processed), Sort(l.skipped), l.totalBytes))
  }

  /** The head of the summary: the "Total Files" line, read back, is the sum of the
      "Total Files Processed" and "Total Files Skipped" lines, which read back as the list lengths. */
  lemma SummaryTotalsAddUp(duration: string, processed: seq<string>, skipped: seq<string>, totalBytes: nat)
    returns (total: string, done: string, missed: string, rest: string)
    ensures SummaryText(duration, processed, skipped, totalBytes)
         == "--- CORPUS PACKER SUMMARY ---\nProcessing Time: " + duration
            + "\nTotal Files: " + total + "\nTotal Files Processed: " + done
            + "\nTotal Files Skipped: " + missed + "\n" + rest
    ensures AllDigits(total) && AllDigits(done) && AllDigits(missed)
    ensures DigitsValue(done) == |processed| && DigitsValue(missed) == |skipped|
    ensures DigitsValue(total) == DigitsValue(done) + DigitsValue(missed)
  {
    total, done, missed := Decimal(|processed| + |skipped|), Decimal(|processed|), Decimal(|skipped|);
    rest := SummaryHeadSplit(duration, processed, skipped, totalBytes);
    DecimalRoundTrip(|processed| + |skipped|);
    DecimalRoundTrip(|processed|);
    DecimalRoundTrip(|skipped|);
  }

  /** The summary text, cut after the "Total Files Skipped" figure. */
  lemma SummaryHeadSplit(duration: string, processed: seq<string>, skipped: seq<string>, totalBytes: nat)
    returns (rest: string)
    ensures SummaryText(duration, processed, skipped, totalBytes)
         == "--- CORPUS PACKER SUMMARY ---\nProcessing Time: " + duration
            + "\nTotal Files: " + Decimal(|processed| + |skipped|)
            + "\nTotal Files Processed: " + Decimal(|processed|)
            + "\nTotal Files Skipped: " + Decimal(|skipped|) + "\n" + rest
  {
    var head := "--- CORPUS PACKER SUMMARY ---\nProcessing Time: " + duration
      + "\nTotal Files: " + Decimal(|processed| + |skipped|)
      + "\nTotal Files Processed: " + Decimal(|processed|)
      + "\nTotal Files Skipped: " + Decimal(|skipped|);
    var caption := BytesCaptionSplit();
    var bytes, lists, names := Decimal(totalBytes), Join(processed, "\n"), Join(skipped, "\n");
    var p, q, z := "\n\nProcessed Files:\n", "\n\nSkipped Files:\n", "\n\n--- END OF SUMMARY ---\n\n";
    rest := caption + bytes + p + lists + q + names + z;
    assert SummaryText(duration, processed, skipped, totalBytes)
        == head + ("\n" + caption) + bytes + p + lists + q + names + z;
    AppendTail(head, "\n" + caption, bytes, p, lists, q, names, z);
    AppendTail("\n", caption, bytes, p, lists, q, names, z);
    AppendAssoc(head, "\n", rest);
  }

  lemma BytesCaptionSplit() returns (caption: string)
    ensures caption == "Total Bytes Processed: " && "\nTotal Bytes Processed: " == "\n" + caption
  {
    caption := "Total Bytes Processed: ";
  }

  // ---------------------------------------------------------------- the processor

  /** Summary: the processing statistics, updated in place as the walk goes on. */
  class Summary {
    var processedFiles: seq<string>
    var skippedFiles: seq<string>
    var totalBytes: nat

    constructor ()
      ensures processedFiles == [] && skippedFiles == [] && totalBytes == 0
    {
      processedFiles := [];
      skippedFiles := [];
      totalBytes := 0;
    }
  }

  /**
   * fileProcessor: the configuration, the text written so far to the head of the writer
   * chain, the verbose content buffer, the set of packed paths, and the summary.
   */
  class FileProcessor {
    const config: Config
    const summary: Summary
    var output: string
    var contentBuffer: string
    var processedFiles: set<string>

    /** The processor's state as a ledger. */
    function Current(): Ledger
      reads this, summary
    {
      Ledger(summary.processedFiles, summary.skippedFiles, summary.totalBytes,
             processedFiles, output, contentBuffer)
    }

    constructor (config: Config)
      ensures this.config == config && fresh(summary)
      ensures Current() == EmptyLedger
    {
      this.config := config;
      summary := new Summary();
      output := "";
      contentBuffer := "";
      processedFiles := {};
    }

    /** shouldIgnoreDir */
    method ShouldIgnoreDir(relPath: string) returns (ignored: bool)
      ensures ignored == IgnoredDir(config.ignoreDirs, relPath)
    {
      var dirs, base := config.ignoreDirs, Base(relPath);
      var i := 0;
      while i < |dirs|
        invariant 0 <= i <= |dirs|
        invariant forall k :: 0 <= k < i ==> !Matched(TrimPrefix(dirs[k], "**/"), base)
      {
        var pattern := TrimPrefix(dirs[i], "**/");
        var matched := Match(pattern, base);
        if matched.Failure? {
          i := i + 1;
          continue;
        }
        if matched.value {
          assert Matched(pattern, base);
          return true;
        }
        i := i + 1;
      }
      return false;
    }

    /** isValidRootDir */
    method IsValidRootDir() returns (valid: bool)
      ensures valid == ValidRoot(config.validDirs)
    {
      for i := 0 to |config.validDirs|
        invariant forall k :: 0 <= k < i ==> '/' !in config.validDirs[k]
      {
        if '/' in config.validDirs[i] {
          return true;
        }
      }
      return false;
    }

    /** isValidSubDir */
    method IsValidSubDir(relPath: string) returns (valid: bool)
      ensures valid == ValidSub(config.validDirs, relPath)
    {
      for i := 0 to |config.validDirs|
        invariant forall k :: 0 <= k < i ==>
          !HasPrefix(config.validDirs[k], relPath + "/") && !HasPrefix(relPath, config.validDirs[k] + "/")
          && relPath != config.validDirs[k]
      {
        var validDir := config.validDirs[i];
        if HasPrefix(validDir, relPath + "/") {
          return true;
        }
        if HasPrefix(relPath, validDir + "/") {
          return true;
        }
        if relPath == validDir {
          return true;
        }
      }
      return false;
    }

    /** isValidDir */
    method IsValidDir(relPath: string) returns (valid: bool)
      ensures valid == ValidDir(config.validDirs, relPath)
    {
      if |config.validDirs| == 0 {
        return true;
      }
      if relPath == "." {
        valid := IsValidRootDir();
        return;
      }
      valid := IsValidSubDir(relPath);
    }

    /** processDirectory: whether the walk skips this directory. */
    method ProcessDirectory(relPath: string) returns (skip: bool)
      ensures skip == PrunedDir(config, relPath)
    {
      var ignored := ShouldIgnoreDir(relPath);
      if ignored {
        return true;
      }
      var valid := IsValidDir(relPath);
      return !valid;
    }

    /** isValidFile */
    method IsValidFile(relPath: string) returns (valid: bool)
      ensures valid == AcceptedFile(config.validExtensions.Items(), config.ignorePatterns, relPath)
    {
      var ext := ToLower(Ext(relPath));
      var exts := config.validExtensions.Items();
      var isValid := false;
      for i := 0 to |exts|
        invariant !isValid ==> forall k :: 0 <= k < i ==> exts[k] != ext
        invariant isValid ==> ext in exts
      {
        if ext == exts[i] {
          isValid := true;
          break;
        }
      }
      if !isValid {
        return false;
      }
      var base, patterns := Base(relPath), config.ignorePatterns;
      for i := 0 to |patterns|
        invariant forall k :: 0 <= k < i ==> !Matched(patterns[k], base)
      {
        var matched := Match(patterns[i], base);
        MatchedMeans(patterns[i], base, matched);
        if matched.Failure? {
          continue;
        }
        if matched.value {
          IgnoreWins(exts, patterns, relPath, i);
          return false;
        }
      }
      AcceptedWhenNoneMatch(exts, patterns, relPath);
      return true;
    }

    /** The separators and the (possibly compressed) content processFile writes for a file. */
    method PackedBlock(relPath: string, content: string) returns (block: string)
      ensures block == Block(config, relPath, content)
    {
      var startSeparator := StartSeparator(relPath);
      var endSeparator := EndSeparator(relPath);
      var data := CompressIfEnabled(content);
      if config.compress {
        startSeparator := TrimSpace(startSeparator) + " ";
        endSeparator := " " + TrimSpace(endSeparator) + " ";
      }
      block := startSeparator + data + endSeparator;
    }

    /**
     * processFile, given what reading the file gave: skipped or packed, with the block
     * going to the buffer in verbose mode and to the output otherwise.
     */
    method ProcessFile(relPath: string, content: Option<string>)
      modifies this, summary
      ensures Current() == FileStep(config, old(Current()), relPath, content)
    {
      ghost var before := Current();
      var valid := IsValidFile(relPath);
      if !valid {
        summary.skippedFiles := summary.skippedFiles + [relPath];
        assert Current() == before.(skipped := before.skipped + [relPath]);
        FileStepSkips(config, before, relPath, content);
        return;
      }
      if content.None? {
        summary.skippedFiles := summary.skippedFiles + [relPath + " (read error)"];
        assert Current() == before.(skipped := before.skipped + [relPath + " (read error)"]);
        FileStepSkips(config, before, relPath, content);
        return;
      }
      var data := content.value;
      var block := PackedBlock(relPath, data);
      FileStepPacks(config, before, relPath, data);
      var out, buffer := output, contentBuffer;
      if config.verbose {
        buffer := buffer + block;
      } else {
        out := out + block;
      }
      summary.processedFiles := summary.processedFiles + [relPath];
      summary.totalBytes := summary.totalBytes + |data|;
      processedFiles := processedFiles + {relPath};
      output, contentBuffer := out, buffer;
      assert Current() == Ledger(before.processed + [relPath], before.skipped, before.totalBytes + |data|,
                                 before.marked + {relPath}, out, buffer);
    }

    /** processPath: the walk callback. Returns whether to skip the directory's subtree. */
    method ProcessPath(e: Entry) returns (skip: bool)
      modifies this, summary
      ensures (Current(), skip) == PathStep(config, old(Current()), e)
    {
      if e.kind.Unreadable? {
        return false;
      }
      if e.relPath in processedFiles {
        return false;
      }
      if e.kind.Directory? {
        skip := ProcessDirectory(e.relPath);
        return;
      }
      ProcessFile(e.relPath, e.kind.content);
      return false;
    }

    /** filepath.Walk over the entries in walk order, honouring SkipDir. */
    method Walk(entries: seq<Entry>)
      modifies this, summary
      ensures Current() == WalkFrom(config, old(Current()), entries)
    {
      var rest := entries;
      while rest != []
        invariant WalkFrom(config, Current(), rest) == WalkFrom(config, old(Current()), entries)
        decreases |rest|
      {
        var e := rest[0];
        var skip := ProcessPath(e);
        rest := rest[1..];
        if skip {
          ghost var all := rest;
          while rest != [] && Under(rest[0].relPath, e.relPath)
            invariant DropUnder(rest, e.relPath) == DropUnder(all, e.relPath)
            decreases |rest|
          {
            rest := rest[1..];
          }
        }
      }
    }

    /** compressContent where the processor applies it: only when compression is on. */
    method CompressIfEnabled(text: string) returns (r: string)
      ensures r == Compressible(config, text)
      ensures config.compress ==> Collapsed(r) && |r| <= |text|
    {
      r := text;
      if config.compress {
        r := CompressContent(text, config.aggressiveCompress, config.verbose);
      }
    }

    /**
     * writeSummary: sorts both lists in place, then appends the summary (compressed when
     * compression is on) to the output.
     */
    method WriteSummary(duration: string)
      modifies this, summary
      ensures summary.processedFiles == Sort(old(summary.processedFiles))
      ensures summary.skippedFiles == Sort(old(summary.skippedFiles))
      ensures summary.totalBytes == old(summary.totalBytes)
      ensures output == old(output) + SummaryOutput(config, old(Current()), duration)
      ensures contentBuffer == old(contentBuffer) && processedFiles == old(processedFiles)
    {
      ghost var before := Current();
      var processed := Sort(summary.processedFiles);
      var skipped := Sort(summary.skippedFiles);
      var text := SummaryText(duration, processed, skipped, summary.totalBytes);
      text := CompressIfEnabled(text);
      summary.processedFiles := processed;
      summary.skippedFiles := skipped;
      output := output + text;
    }
  }

  // ---------------------------------------------------------------- a whole run

  /** The writers ProcessDirectory stacks, innermost first. */
  datatype Sink = OutputFile | Base64Encoder | GzipWriter

  /** What os.MkdirAll reports for the output file's directory. */
  datatype MkdirOutcome = MkdirOk | MkdirReadOnly | MkdirFailed

  /**
   * What the file system answers during a run: whether the input directory exists, how
   * creating the output directory and the output file go, and the entries filepath.Walk
   * visits, in walk order.
   */
  datatype FileSystem = FileSystem(inputExists: bool, mkdir: MkdirOutcome, canCreate: bool, entries: seq<Entry>)

  /** The errors ProcessDirectory returns before the walk. */
  datatype Error = InputDirMissing(dir: string) | CreateOutputDir | CreateOutputFile | Base64RequiresGzip

  /** The start of each error's message (the wrapped operating-system error follows it). */
  function ErrorMessage(e: Error): string {
    match e
    case InputDirMissing(dir) => "input directory does not exist: " + dir
    case CreateOutputDir => "error creating output directory: "
    case CreateOutputFile => "error creating output file: "
    case Base64RequiresGzip => "--base64 requires --gzip"
  }

  /** A completed run: the writer chain, the order the writers are closed in, and the bytes written into the chain. */
  datatype Written = Written(chain: seq<Sink>, closed: seq<Sink>, text: string)

  /** The output file created (if any) and the result. */
  datatype Run = Run(created: Option<string>, outcome: Result<Written, Error>)

  /** The defaults ProcessDirectory fills in before validating. */
  function Prepared(config: Config): Config {
    var exts := if config.validExtensions.Nil? then DefaultConfig().validExtensions else config.validExtensions;
    config.(inputDir := if config.inputDir == "" then "." else config.inputDir,
            outputFile := OutputName(config.outputFile, config.gzip),
            validExtensions := exts,
            ignoreDirs := if |config.ignoreDirs| == 0 then DefaultIgnoreDirs else config.ignoreDirs,
            ignorePatterns := if |config.ignorePatterns| == 0 then DefaultIgnorePatterns else config.ignorePatterns)
  }

  /**
   * The prepared configuration names an input directory and holds an extension list; a
   * given extension list, the valid directories and the flags are kept.
   */
  lemma PreparedKeeps(config: Config)
    ensures var r := Prepared(config);
      r.inputDir != [] && r.validExtensions.Slice?
      && (config.inputDir != "" ==> r.inputDir == config.inputDir)
      && (config.validExtensions.Slice? ==> r.validExtensions == config.validExtensions)
      && r.validDirs == config.validDirs && r.gzip == config.gzip && r.base64 == config.base64
      && r.verbose == config.verbose && r.compress == config.compress
      && r.aggressiveCompress == config.aggressiveCompress
  {
  }

  /** Filling in the defaults twice is filling them in once. */
  lemma PreparedIdempotent(config: Config)
    ensures Prepared(Prepared(config)) == Prepared(config)
  {
    OutputNameIdempotent(config.outputFile, config.gzip);
  }

  /**
   * A nil extension list becomes the defaults while an empty one stays empty; empty
   * ignore lists become the defaults.
   */
  lemma PreparedLists(config: Config)
    ensures config.validExtensions.Nil? ==> Prepared(config).validExtensions.Items() == DefaultExtensions
    ensures config.validExtensions == Slice([]) ==> Prepared(config).validExtensions.Items() == []
    ensures Prepared(config).ignoreDirs != [] && Prepared(config).ignorePatterns != []
    ensures config.ignoreDirs != [] ==> Prepared(config).ignoreDirs == config.ignoreDirs
    ensures config.ignorePatterns != [] ==> Prepared(config).ignorePatterns == config.ignorePatterns
  {
    assert |DefaultIgnoreDirs| == 12 && |DefaultIgnorePatterns| == 6;
  }

  /** validateConfig: the input directory must exist; the extensions are normalised. */
  function Validated(config: Config, inputExists: bool): (r: Result<Config, Error>)
    ensures !inputExists <==> r == Failure(InputDirMissing(config.inputDir))
    ensures r.Success? ==> r.value == config.(validExtensions := r.value.validExtensions)
    ensures r.Success? ==> r.value.validExtensions == Slice(NormalizedExtensions(config.validExtensions.Items()))
  {
    if !inputExists then Failure(InputDirMissing(config.inputDir))
    else Success(config.(validExtensions := Slice(NormalizedExtensions(config.validExtensions.Items()))))
  }

  /** validateConfig */
  method ValidateConfig(config: Config, inputExists: bool) returns (r: Result<Config, Error>)
    ensures r == Validated(config, inputExists)
    ensures r.Success? ==> NoDuplicates(r.value.validExtensions.Items())
  {
    if !inputExists {
      return Failure(InputDirMissing(config.inputDir));
    }
    var exts := NormalizeExtensions(config.validExtensions.Items());
    return Success(config.(validExtensions := Slice(exts)));
  }

  /** The writer chain, innermost first: the file, then base64, then gzip, as enabled. */
  function Chain(config: Config): seq<Sink> {
    [OutputFile] + (if config.base64 then [Base64Encoder] else []) + (if config.gzip then [GzipWriter] else [])
  }

  /** The close order: gzip, then base64, then (deferred) the file. */
  function CloseOrder(config: Config): seq<Sink> {
    (if config.gzip then [GzipWriter] else []) + (if config.base64 then [Base64Encoder] else []) + [OutputFile]
  }

  function Reverse<T>(s: seq<T>): (r: seq<T>)
    ensures |r| == |s| && forall i :: 0 <= i < |s| ==> r[i] == s[|s| - 1 - i]
  {
    if s == [] then [] else Reverse(s[1..]) + [s[0]]
  }

  /**
   * The bytes a run writes into the writer chain: the blocks written during the walk, and
   * in verbose mode the summary followed by the buffered blocks.
   */
  function Packed(config: Config, entries: seq<Entry>, duration: string): string {
    var l := WalkFrom(config, EmptyLedger, entries);
    if config.verbose then l.out + SummaryOutput(config, l, duration) + l.buffer else l.out
  }

  /** Without verbose mode the packed text is the packed files' blocks, each file once. */
  lemma PlainPackedIsBlocks(config: Config, entries: seq<Entry>, duration: string)
    requires !config.verbose
    ensures var packed := WalkPacked(config, EmptyLedger, entries);
      Packed(config, entries, duration) == Blocks(config, packed) && NoDuplicates(Paths(packed))
  {
    WalkPacksEachOnce(config, entries);
  }

  /** What a run of ProcessDirectory does, given the file system's answers. */
  function RunSpec(config: Config, fs: FileSystem, duration: string): Run {
    var c := Prepared(config);
    match Validated(c, fs.inputExists)
    case Failure(e) => Run(None, Failure(e))
    case Success(v) =>
      if fs.mkdir == MkdirReadOnly then Run(None, Failure(CreateOutputFile))
      else if fs.mkdir == MkdirFailed then Run(None, Failure(CreateOutputDir))
      else if !fs.canCreate then Run(None, Failure(CreateOutputFile))
      else if v.base64 && !v.gzip then Run(Some(v.outputFile), Failure(Base64RequiresGzip))
      else
        Run(Some(v.outputFile), Success(Written(Chain(v), CloseOrder(v), Packed(v, fs.entries, duration))))
  }

  /** The defaulting steps at the head of ProcessDirectory. */
  method ApplyRunDefaults(config: Config) returns (c: Config)
    ensures c == Prepared(config)
  {
    var inputDir := config.inputDir;
    if inputDir == "" {
      inputDir := ".";
    }
    var outputFile := config.outputFile;
    if outputFile == "" || outputFile == DefaultOutput {
      outputFile := if config.gzip then DefaultOutput + ".gz" else DefaultOutput;
    } else if config.gzip && !HasSuffix(outputFile, ".gz") && !Contains(outputFile, ".gz.") {
      outputFile := outputFile + ".gz";
    }
    var validExtensions := config.validExtensions;
    if validExtensions.Nil? {
      validExtensions := DefaultConfig().validExtensions;
    }
    var ignoreDirs := config.ignoreDirs;
    if |ignoreDirs| == 0 {
      ignoreDirs := DefaultIgnoreDirs;
    }
    var ignorePatterns := config.ignorePatterns;
    if |ignorePatterns| == 0 {
      ignorePatterns := DefaultIgnorePatterns;
    }
    assert outputFile == OutputName(config.outputFile, config.gzip);
    c := config.(inputDir := inputDir, outputFile := outputFile, validExtensions := validExtensions,
                 ignoreDirs := ignoreDirs, ignorePatterns := ignorePatterns);
  }

  /** The walk and, in verbose mode, the summary and the buffered content. */
  method Pack(config: Config, entries: seq<Entry>, duration: string) returns (text: string)
    ensures text == Packed(config, entries, duration)
  {
    var processor := new FileProcessor(config);
    processor.Walk(entries);
    ghost var l := processor.Current();
    assert l == WalkFrom(config, EmptyLedger, entries);
    if config.verbose {
      processor.WriteSummary(duration);
      assert processor.output == l.out + SummaryOutput(config, l, duration);
      processor.output := processor.output + processor.contentBuffer;
    }
    text := processor.output;
  }

  /** ProcessDirectory */
  method ProcessDirectory(config: Config, fs: FileSystem, duration: string) returns (r: Run)
    ensures r == RunSpec(config, fs, duration)
  {
    var c := ApplyRunDefaults(config);
    var validated := ValidateConfig(c, fs.inputExists);
    if validated.Failure? {
      return Run(None, Failure(validated.error));
    }
    var v := validated.value;
    if fs.mkdir == MkdirReadOnly {
      return Run(None, Failure(CreateOutputFile));
    }
    if fs.mkdir == MkdirFailed {
      return Run(None, Failure(CreateOutputDir));
    }
    if !fs.canCreate {
      return Run(None, Failure(CreateOutputFile));
    }
    var chain := [OutputFile];
    if v.base64 {
      if !v.gzip {
        return Run(Some(v.outputFile), Failure(Base64RequiresGzip));
      }
      chain := chain + [Base64Encoder];
    }
    if v.gzip {
      chain := chain + [GzipWriter];
    }
    var text := Pack(v, fs.entries, duration);
    var closed := [];
    if v.gzip {
      closed := closed + [GzipWriter];
    }
    if v.base64 {
      closed := closed + [Base64Encoder];
    }
    closed := closed + [OutputFile];
    assert chain == Chain(v) && closed == CloseOrder(v);
    return Run(Some(v.outputFile), Success(Written(chain, closed, text)));
  }

  lemma TrimmedStartSeparator(relPath: string)
    ensures TrimSpace(StartSeparator(relPath)) == StartLabel + relPath + LabelEnd
  {
    var start := StartLabel + relPath + LabelEnd;
    LabelEnds();
    assert start[0] == StartLabel[0] && start[|start| - 1] == LabelEnd[3];
    assert StartSeparator(relPath) == [] + start + "\n";
    TrimSpaceAround([], start, "\n");
  }

  lemma TrimmedEndSeparator(relPath: string)
    ensures TrimSpace(EndSeparator(relPath)) == EndLabel + relPath + LabelEnd
  {
    var end := EndLabel + relPath + LabelEnd;
    LabelEnds();
    assert end[0] == EndLabel[0] && end[|end| - 1] == LabelEnd[3];
    assert EndSeparator(relPath) == "\n" + end + "\n\n";
    TrimSpaceAround("\n", end, "\n\n");
  }

  lemma LabelEnds()
    ensures StartLabel[0] == '-' && EndLabel[0] == '-' && |LabelEnd| == 4 && LabelEnd[3] == '-'
  {
  }

  /** A compressed block keeps both file markers, each trimmed and set off by single spaces. */
  lemma CompressedBlockKeepsMarkers(config: Config, relPath: string, content: string)
    requires config.compress
    ensures Block(config, relPath, content)
      == (StartLabel + relPath + LabelEnd + " ")
         + Compressed(content, config.aggressiveCompress, config.verbose)
         + (" " + (EndLabel + relPath + LabelEnd) + " ")
  {
    TrimmedStartSeparator(relPath);
    TrimmedEndSeparator(relPath);
  }

  /** The configuration a run settles on once the defaults are in and the extensions normalised. */
  function Settled(config: Config): Config {
    var c := Prepared(config);
    c.(validExtensions := Slice(NormalizedExtensions(c.validExtensions.Items())))
  }

  /** A run gets past its checks exactly when the input exists, the output can be made, and base64 comes with gzip. */
  lemma RunSucceeds(config: Config, fs: FileSystem, duration: string)
    ensures RunSpec(config, fs, duration).outcome.Success?
        <==> fs.inputExists && fs.mkdir == MkdirOk && fs.canCreate && (config.base64 ==> config.gzip)
    ensures RunSpec(config, fs, duration).outcome.Success?
        ==> RunSpec(config, fs, duration).outcome.value.text == Packed(Settled(config), fs.entries, duration)
  {
  }

  /** A missing input directory is reported before anything is created. */
  lemma MissingInputCreatesNothing(config: Config, fs: FileSystem, duration: string)
    requires !fs.inputExists
    ensures RunSpec(config, fs, duration) == Run(None, Failure(InputDirMissing(Prepared(config).inputDir)))
  {
  }

  /**
   * Base64 without gzip is refused only after the output file has been created, so the run
   * leaves an empty output file behind.
   */
  lemma Base64WithoutGzipLeavesFile(config: Config, fs: FileSystem, duration: string)
    requires fs.inputExists && fs.mkdir == MkdirOk && fs.canCreate
    requires config.base64 && !config.gzip
    ensures RunSpec(config, fs, duration)
         == Run(Some(OutputName(config.outputFile, false)), Failure(Base64RequiresGzip))
  {
  }

  /**
   * The file is the innermost writer and gzip the outermost; the writers are closed in the
   * reverse of the order they were stacked, the file last.
   */
  lemma WriterChainOrder(config: Config, fs: FileSystem, duration: string)
    requires RunSpec(config, fs, duration).outcome.Success?
    ensures var w := RunSpec(config, fs, duration).outcome.value;
      w.chain[0] == OutputFile && w.closed == Reverse(w.chain)
      && (config.gzip ==> w.chain[|w.chain| - 1] == GzipWriter)
      && (config.base64 ==> w.chain == [OutputFile, Base64Encoder, GzipWriter])
      && (config.gzip && !config.base64 ==> w.chain == [OutputFile, GzipWriter])
      && (!config.base64 && !config.gzip ==> w.chain == [OutputFile])
  {
    var w := RunSpec(config, fs, duration).outcome.value;
    var v := Settled(config);
    PreparedKeeps(config);
    assert v.gzip == config.gzip && v.base64 == config.base64;
    assert w.chain == Chain(v) && w.closed == CloseOrder(v);
    ChainShapes(v);
  }

  /** The writer chains a run can stack, and their close orders. */
  lemma ChainShapes(v: Config)
    requires !v.base64 || v.gzip
    ensures Chain(v)[0] == OutputFile && CloseOrder(v) == Reverse(Chain(v))
    ensures v.gzip ==> Chain(v)[|Chain(v)| - 1] == GzipWriter
    ensures v.base64 ==> Chain(v) == [OutputFile, Base64Encoder, GzipWriter]
    ensures v.gzip && !v.base64 ==> Chain(v) == [OutputFile, GzipWriter]
    ensures !v.base64 && !v.gzip ==> Chain(v) == [OutputFile]
  {
    if v.base64 {
      assert Chain(v) == [OutputFile, Base64Encoder, GzipWriter];
      assert CloseOrder(v) == [GzipWriter, Base64Encoder, OutputFile];
    } else if v.gzip {
      assert Chain(v) == [OutputFile, GzipWriter];
      assert CloseOrder(v) == [GzipWriter, OutputFile];
    } else {
      assert Chain(v) == [OutputFile] == CloseOrder(v);
    }
  }

  /**
   * Verbose mode writes the summary and then exactly what plain mode writes; the summary
   * describes the same walk.
   */
  lemma VerboseIsSummaryThenPlain(config: Config, fs: FileSystem, duration: string)
    ensures var rv := RunSpec(config.(verbose := true), fs, duration);
      var rp := RunSpec(config.(verbose := false), fs, duration);
      rv.outcome.Success? == rp.outcome.Success?
      && (rv.outcome.Success? ==>
            rv.outcome.value.text
            == SummaryOutput(Settled(config.(verbose := true)),
                             WalkFrom(Settled(config.(verbose := false)), EmptyLedger, fs.entries), duration)
               + rp.outcome.value.text)
  {
    var cv, cp := config.(verbose := true), config.(verbose := false);
    RunSucceeds(cv, fs, duration);
    RunSucceeds(cp, fs, duration);
    SettledKeepsVerbose(config, true);
    SettledKeepsVerbose(config, false);
    PackedVerbose(Settled(config), fs.entries, duration);
  }

  /** The verbose flag passes through the defaults and the validation untouched. */
  lemma SettledKeepsVerbose(config: Config, verbose: bool)
    ensures Settled(config.(verbose := verbose)) == Settled(config).(verbose := verbose)
  {
  }

  /** Verbose packing is the summary of the walk followed by what plain packing writes. */
  lemma PackedVerbose(config: Config, entries: seq<Entry>, duration: string)
    ensures Packed(config.(verbose := true), entries, duration)
         == SummaryOutput(config.(verbose := true), WalkFrom(config.(verbose := false), EmptyLedger, entries), duration)
            + Packed(config.(verbose := false), entries, duration)
  {
    var cv, cp := config.(verbose := true), config.(verbose := false);
    var lv, lp := WalkFrom(cv, EmptyLedger, entries), WalkFrom(cp, EmptyLedger, entries);
    WalkMirrors(config, EmptyLedger, EmptyLedger, entries);
    WalkSinks(cv, EmptyLedger, entries);
    assert lv.out == "" && lv.buffer == lp.out;
    var summary := SummaryOutput(cv, lv, duration);
    assert summary == SummaryOutput(cv, lp, duration);
    assert Packed(cp, entries, duration) == lp.out;
    assert Packed(cv, entries, duration) == lv.out + summary + lv.buffer;
    assert lv.out + summary == summary;
  }
}
