/**
 * The packer's file-based configuration: its defaults, how a configuration given on the
 * command line is merged with one loaded automatically, and how missing values are filled
 * in before a run.
 */
module Configuration {
  import opened Wrappers
  import opened Text
  import Process

  /**
   * A configuration as the configuration file describes it. The glob lists keep Go's
   * distinction between a nil slice and an empty one.
   */
  datatype Config = Config(
    inputDir: string,
    outputFile: string,
    includeGlobs: StringSlice,
    excludeGlobs: StringSlice,
    verbose: bool,
    compress: bool,
    maxCompress: bool,
    gzip: bool,
    base64: bool)

  /** Go's zero value of the configuration. */
  const Zero := Config("", "", Nil, Nil, false, false, false, false, false)

  const DefaultIncludeGlobs: seq<string> := [
    "**/*.go", "**/*.js", "**/*.ts", "**/*.css", "**/*.py", "**/*.java", "**/*.cpp", "**/*.c",
    "**/*.h", "**/*.hpp", "**/*.rb", "**/*.php", "**/*.cs", "**/*.swift", "**/*.kt", "**/*.md",
    "**/*.tsx", "**/*.jsx", "**/*.json", "**/*.{yaml,yml}", "**/*.toml", "**/*.txt", "**/*.xml",
    "**/*.{doc,docx}", "**/*.{ppt,pptx}", "**/*.{xls,xlsx}", "**/*.pdf"]

  const DefaultExcludeGlobs: seq<string> := [
    "**/vendor/**", "**/.git/**", "**/.github/**", "**/node_modules/**", "**/__pycache__/**",
    "**/bin/**", "**/obj/**", "**/build/**", "**/dist/**", "**/.vitepress/**", "**/.idea/**",
    "**/.vscode/**", "**/*.min.*", "**/*.map", "**/*.generated.*"]

  /** The defaults: the current directory, corpus-out.txt, the glob lists above, no flags. */
  function DefaultConfig(): (c: Config)
    ensures c.inputDir == "." && c.outputFile == "corpus-out.txt"
    ensures c.includeGlobs.Slice? && c.excludeGlobs.Slice?
    ensures !c.verbose && !c.compress && !c.maxCompress && !c.gzip && !c.base64
  {
    Config(".", "corpus-out.txt", Slice(DefaultIncludeGlobs), Slice(DefaultExcludeGlobs),
           false, false, false, false, false)
  }

  /** The defaults include Go sources and exclude the contents of .git directories. */
  lemma DefaultGlobs()
    ensures "**/*.go" in DefaultConfig().includeGlobs.Items()
    ensures "**/.git/**" in DefaultConfig().excludeGlobs.Items()
    ensures |DefaultConfig().includeGlobs.Items()| == 27 && |DefaultConfig().excludeGlobs.Items()| == 15
  {
    assert DefaultIncludeGlobs[0] == "**/*.go";
    assert DefaultExcludeGlobs[1] == "**/.git/**";
  }

  // ---------------------------------------------------------------- sliceEqual

  /** sliceEqual: same length and equal element by element (nil and empty are equal). */
  method SliceEqual(a: StringSlice, b: StringSlice) returns (equal: bool)
    ensures equal <==> a.Items() == b.Items()
  {
    var xs, ys := a.Items(), b.Items();
    if |xs| != |ys| {
      return false;
    }
    for i := 0 to |xs|
      invariant xs[..i] == ys[..i]
    {
      if xs[i] != ys[i] {
        return false;
      }
      assert xs[..i + 1] == xs[..i] + [xs[i]] && ys[..i + 1] == ys[..i] + [ys[i]];
    }
    assert xs == xs[..|xs|] && ys == ys[..|ys|];
    return true;
  }

  // ---------------------------------------------------------------- merging

  /** isEmptyConfig: every field but the input directory has its zero value. */
  predicate IsEmptyConfig(c: Config) {
    c.outputFile == "" && |c.includeGlobs.Items()| == 0 && |c.excludeGlobs.Items()| == 0
    && !c.verbose && !c.compress && !c.maxCompress && !c.gzip && !c.base64
  }

  /**
   * MergeConfig: the given configuration wins. With no automatic configuration it is kept
   * as it is; when it is empty the automatic one is taken (keeping a given input directory);
   * otherwise only its empty strings and empty glob lists are filled from the automatic one.
   */
  function MergeConfig(config: Config, auto: Option<Config>): Config
  {
    if auto.None? then config
    else if IsEmptyConfig(config) then
      if config.inputDir != "" then auto.value.(inputDir := config.inputDir) else auto.value
    else
      var a := auto.value;
      config.(inputDir := if config.inputDir == "" then a.inputDir else config.inputDir,
              outputFile := if config.outputFile == "" then a.outputFile else config.outputFile,
              includeGlobs := if |config.includeGlobs.Items()| == 0 then a.includeGlobs else config.includeGlobs,
              excludeGlobs := if |config.excludeGlobs.Items()| == 0 then a.excludeGlobs else config.excludeGlobs)
  }

  /** The three cases of MergeConfig, field by field. */
  lemma MergeConfigCases(config: Config, auto: Option<Config>)
    ensures var r := MergeConfig(config, auto);
      auto.None? ==> r == config
    ensures var r := MergeConfig(config, auto);
      auto.Some? ==> r.inputDir == if config.inputDir != "" then config.inputDir else auto.value.inputDir
    ensures var r := MergeConfig(config, auto);
      auto.Some? && !IsEmptyConfig(config) ==>
      r.outputFile == (if config.outputFile != "" then config.outputFile else auto.value.outputFile)
      && r.includeGlobs == (if |config.includeGlobs.Items()| != 0 then config.includeGlobs else auto.value.includeGlobs)
      && r.excludeGlobs == (if |config.excludeGlobs.Items()| != 0 then config.excludeGlobs else auto.value.excludeGlobs)
      && r.verbose == config.verbose && r.compress == config.compress && r.maxCompress == config.maxCompress
      && r.gzip == config.gzip && r.base64 == config.base64
    ensures var r := MergeConfig(config, auto);
      auto.Some? && IsEmptyConfig(config) ==> r.(inputDir := auto.value.inputDir) == auto.value
  {
  }

  /** Whether a configuration is empty does not depend on its input directory. */
  lemma EmptinessIgnoresInputDir(c: Config, dir: string)
    ensures IsEmptyConfig(c.(inputDir := dir)) == IsEmptyConfig(c)
  {
  }

  /** A non-empty configuration keeps every non-empty value it has. */
  lemma MergeKeepsGivenValues(config: Config, auto: Option<Config>)
    requires !IsEmptyConfig(config)
    ensures var r := MergeConfig(config, auto);
      (config.inputDir != "" ==> r.inputDir == config.inputDir)
      && (config.outputFile != "" ==> r.outputFile == config.outputFile)
      && (|config.includeGlobs.Items()| != 0 ==> r.includeGlobs == config.includeGlobs)
      && (|config.excludeGlobs.Items()| != 0 ==> r.excludeGlobs == config.excludeGlobs)
      && !IsEmptyConfig(r)
  {
  }

  /** Merging the result once more with the same automatic configuration changes nothing. */
  lemma MergeIdempotent(config: Config, auto: Option<Config>)
    ensures MergeConfig(MergeConfig(config, auto), auto) == MergeConfig(config, auto)
  {
    if auto.Some? && !IsEmptyConfig(config) {
      MergeKeepsGivenValues(config, auto);
    }
  }

  /** The three cases exercised by the configuration tests. */
  lemma MergeExamples()
    ensures MergeConfig(Zero.(inputDir := ".", outputFile := "out.txt"), None)
         == Zero.(inputDir := ".", outputFile := "out.txt")
    ensures MergeConfig(Zero.(inputDir := "."),
                        Some(Zero.(outputFile := "auto.txt", includeGlobs := Slice(["**/*.go"]), verbose := true)))
         == Zero.(inputDir := ".", outputFile := "auto.txt", includeGlobs := Slice(["**/*.go"]), verbose := true)
    ensures MergeConfig(Zero.(inputDir := "/custom", outputFile := "custom.txt", includeGlobs := Slice(["**/*.py"])),
                        Some(Zero.(inputDir := "/auto", outputFile := "auto.txt",
                                   includeGlobs := Slice(["**/*.go"]), verbose := true)))
         == Zero.(inputDir := "/custom", outputFile := "custom.txt", includeGlobs := Slice(["**/*.py"]))
  {
    assert !IsEmptyConfig(Zero.(inputDir := "/custom", outputFile := "custom.txt", includeGlobs := Slice(["**/*.py"])));
  }

  // ---------------------------------------------------------------- defaults

  /** The output name ApplyDefaults settles on. */
  function DefaultedOutputName(name: string, gzip: bool): string {
    if name == "" then (if gzip then "corpus-out.txt.gz" else "corpus-out.txt")
    else if gzip && !HasSuffix(name, ".gz") && !Contains(name, ".gz.") then name + ".gz"
    else name
  }

  /**
   * ApplyDefaults: the current directory for an empty input directory, the output-name
   * rule, and the default glob lists in place of nil ones (empty ones are kept).
   */
  function ApplyDefaults(config: Config): Config
  {
    var defaults := DefaultConfig();
    config.(inputDir := if config.inputDir == "" then defaults.inputDir else config.inputDir,
            outputFile := DefaultedOutputName(config.outputFile, config.gzip),
            includeGlobs := if config.includeGlobs.Nil? then defaults.includeGlobs else config.includeGlobs,
            excludeGlobs := if config.excludeGlobs.Nil? then defaults.excludeGlobs else config.excludeGlobs)
  }

  /** What ApplyDefaults fills in and what it keeps, field by field. */
  lemma ApplyDefaultsFields(config: Config)
    ensures var r := ApplyDefaults(config);
      r.inputDir != "" && (config.inputDir != "" ==> r.inputDir == config.inputDir)
    ensures ApplyDefaults(config).outputFile != ""
    ensures var r := ApplyDefaults(config);
      r.includeGlobs == if config.includeGlobs.Nil? then DefaultConfig().includeGlobs else config.includeGlobs
    ensures var r := ApplyDefaults(config);
      r.excludeGlobs == if config.excludeGlobs.Nil? then DefaultConfig().excludeGlobs else config.excludeGlobs
    ensures var r := ApplyDefaults(config);
      r.verbose == config.verbose && r.compress == config.compress && r.maxCompress == config.maxCompress
      && r.gzip == config.gzip && r.base64 == config.base64
  {
  }

  /**
   * ApplyDefaults names the output exactly as ProcessDirectory does: the default name, or
   * the given one with ".gz" appended under gzip unless it ends in ".gz" or holds ".gz.".
   */
  lemma OutputNamesAgree(name: string, gzip: bool)
    ensures DefaultedOutputName(name, gzip) == Process.OutputName(name, gzip)
  {
    if name == Process.DefaultOutput && gzip {
      assert !HasSuffix(name, ".gz") by {
        assert name[|name| - 3..] == ".txt"[1..];
      }
      assert !Contains(name, ".gz.") by {
        NoGzInDefaultName();
      }
    }
  }

  lemma NoGzInDefaultName()
    ensures !Contains("corpus-out.txt", ".gz.")
  {
    if Contains("corpus-out.txt", ".gz.") {
      ContainedCharsOccur("corpus-out.txt", ".gz.", 1);
    }
  }

  /** Filling in the defaults a second time changes nothing. */
  lemma ApplyDefaultsIdempotent(config: Config)
    ensures ApplyDefaults(ApplyDefaults(config)) == ApplyDefaults(config)
  {
    OutputNamesAgree(config.outputFile, config.gzip);
    var n := Process.OutputName(config.outputFile, config.gzip);
    OutputNamesAgree(n, config.gzip);
    Process.OutputNameIdempotent(config.outputFile, config.gzip);
  }

  /** The three cases exercised by the configuration tests. */
  lemma ApplyDefaultsExamples()
    ensures var r := ApplyDefaults(Zero);
      r.inputDir == "." && r.outputFile == "corpus-out.txt"
      && r.includeGlobs == DefaultConfig().includeGlobs && r.excludeGlobs == DefaultConfig().excludeGlobs
    ensures var r := ApplyDefaults(Zero.(inputDir := "src", gzip := true));
      r.inputDir == "src" && r.outputFile == "corpus-out.txt.gz" && r.gzip
      && r.includeGlobs == DefaultConfig().includeGlobs && r.excludeGlobs == DefaultConfig().excludeGlobs
    ensures var r := ApplyDefaults(Zero.(inputDir := "/custom", outputFile := "out.txt", includeGlobs := Slice(["**/*.py"])));
      r.inputDir == "/custom" && r.outputFile == "out.txt"
      && r.includeGlobs == Slice(["**/*.py"]) && r.excludeGlobs == DefaultConfig().excludeGlobs
  {
  }
}
