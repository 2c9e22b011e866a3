/**
 * The read-only part of `CompilationConfig` in smx_analysis.py: looking up
 * the configuration of a file extension and of a directory, building the
 * compile command of a file, and deciding whether a file is a source file
 * to analyse. The configuration is the already parsed JSON object.
 */
module SmxAnalysis {
  import opened Common
  import opened Text

  /** The `ignore` object of a directory; `None` stands for an absent key. */
  datatype Ignore = Ignore(configs: Option<seq<string>>, files: Option<seq<string>>)

  /** One entry of `directoryConfigs`; `None` stands for an absent key. */
  datatype DirConfig = DirConfig(flags: Option<map<string, string>>, ignore: Option<Ignore>)

  /** The configuration file: extension to config name, config name to command, directory name to its settings. */
  datatype Config = Config(
    extensionMap: map<string, string>,
    configs: map<string, string>,
    directoryConfigs: map<string, DirConfig>)

  /** `__ext_cfg` (lines 46-47): the config name of an extension, looked up in lower case. */
  function ExtCfg(config: Config, ext: string): Option<string>
  {
    var key := Lower(ext);
    if key in config.extensionMap then Some(config.extensionMap[key]) else None
  }

  /** The lookup ignores the case of the extension. */
  lemma ExtCfgIgnoresCase(config: Config, ext: string)
    ensures ExtCfg(config, Lower(ext)) == ExtCfg(config, ext)
    ensures ExtCfg(config, ext).Some? <==> Lower(ext) in config.extensionMap
  {
    LowerIdempotent(ext);
  }

  /** `__dir_config` (lines 49-50): the settings of a directory, empty for an unknown one. */
  function DirConfigOf(config: Config, dirName: string): DirConfig
  {
    if dirName in config.directoryConfigs then config.directoryConfigs[dirName] else DirConfig(None, None)
  }

  /** `.get('flags', {}).get(cfg)` (line 57). */
  function FlagsOf(dir: DirConfig, cfg: string): Option<string>
  {
    if dir.flags.Some? && cfg in dir.flags.value then Some(dir.flags.value[cfg]) else None
  }

  /** `.get('ignore', {}).get('configs', [])` (lines 70-71). */
  function IgnoredConfigs(dir: DirConfig): seq<string>
  {
    if dir.ignore.Some? && dir.ignore.value.configs.Some? then dir.ignore.value.configs.value else []
  }

  /** `.get('ignore', {}).get('files', [])` (lines 70, 73). */
  function IgnoredFiles(dir: DirConfig): seq<string>
  {
    if dir.ignore.Some? && dir.ignore.value.files.Some? then dir.ignore.value.files.value else []
  }

  /** An unknown directory has no flags and ignores nothing. */
  lemma UnknownDirectoryIsEmpty(config: Config, dirName: string, cfg: string)
    requires dirName !in config.directoryConfigs
    ensures FlagsOf(DirConfigOf(config, dirName), cfg).None?
    ensures IgnoredConfigs(DirConfigOf(config, dirName)) == [] && IgnoredFiles(DirConfigOf(config, dirName)) == []
  {
  }

  /** The outcome of `__get_compile_cmd`: the command line, or the exception raised. */
  datatype CompileCmd =
    | Command(line: string)
    | UnknownExtension(ext: string)  // the RuntimeError of line 55
    | MissingConfig(cfg: string)     // the KeyError of line 56

  /**
   * `__get_compile_cmd` (lines 52-60): the command of the extension's
   * config, followed by a space and the directory's flags for that config
   * when it has some.
   */
  function GetCompileCmd(config: Config, dirName: string, ext: string): CompileCmd
  {
    match ExtCfg(config, ext)
    case None => UnknownExtension(ext)
    case Some(cfg) =>
      if cfg !in config.configs then MissingConfig(cfg)
      else
        var cmd := config.configs[cfg];
        match FlagsOf(DirConfigOf(config, dirName), cfg)
        case Some(flags) => Command(cmd + " " + flags)
        case None => Command(cmd)
  }

  /**
   * The errors of `__get_compile_cmd`: an unknown extension exactly when the
   * extension maps to no config, a missing command exactly when it maps to a
   * config without one; otherwise the line is the command of that config
   * alone when the directory has no flags for the config, and the command, a
   * space and the flags when it has.
   */
  lemma CompileCmdCharacterised(config: Config, dirName: string, ext: string)
    ensures GetCompileCmd(config, dirName, ext).UnknownExtension? <==> ExtCfg(config, ext).None?
    ensures GetCompileCmd(config, dirName, ext).MissingConfig? <==>
      ExtCfg(config, ext).Some? && ExtCfg(config, ext).value !in config.configs
    ensures GetCompileCmd(config, dirName, ext).Command? ==>
      var cfg := ExtCfg(config, ext).value;
      var cmd := config.configs[cfg];
      var line := GetCompileCmd(config, dirName, ext).line;
      && cfg in config.configs
      && |cmd| <= |line| && line[..|cmd|] == cmd
      && (line == cmd <==> FlagsOf(DirConfigOf(config, dirName), cfg).None?)
      && (FlagsOf(DirConfigOf(config, dirName), cfg).Some? ==>
            line == cmd + " " + FlagsOf(DirConfigOf(config, dirName), cfg).value)
  {
    match ExtCfg(config, ext)
    case None =>
    case Some(cfg) =>
      if cfg in config.configs {
        var cmd := config.configs[cfg];
        match FlagsOf(DirConfigOf(config, dirName), cfg)
        case Some(flags) =>
          assert (cmd + " " + flags)[..|cmd|] == cmd;
          assert |cmd + " " + flags| > |cmd|;
        case None =>
      }
  }

  /** `for f in files: if file.endswith(f): return False` (lines 73-75), true when some suffix matches. */
  function EndsWithAny(file: string, suffixes: seq<string>): (r: bool)
    ensures r <==> exists k | 0 <= k < |suffixes| :: EndsWith(file, suffixes[k])
  {
    if suffixes == [] then false
    else if EndsWith(file, suffixes[0]) then true
    else
      var r := EndsWithAny(file, suffixes[1..]);
      assert forall k | 1 <= k < |suffixes| :: suffixes[1..][k - 1] == suffixes[k];
      r
  }

  /** `is_source` (lines 62-76). */
  function IsSource(config: Config, dirName: string, file: string): bool
  {
    match ExtCfg(config, ExtensionOf(file))
    case None => false
    case Some(cfg) =>
      var dir := DirConfigOf(config, dirName);
      if cfg in IgnoredConfigs(dir) then false
      else !EndsWithAny(file, IgnoredFiles(dir))
  }

  /**
   * A file is a source file exactly when its extension maps to a config, that
   * config is not ignored in the directory, and the file name ends with none
   * of the directory's ignored file names.
   */
  lemma IsSourceCharacterised(config: Config, dirName: string, file: string)
    ensures IsSource(config, dirName, file) <==>
      && ExtCfg(config, ExtensionOf(file)).Some?
      && ExtCfg(config, ExtensionOf(file)).value !in IgnoredConfigs(DirConfigOf(config, dirName))
      && forall k | 0 <= k < |IgnoredFiles(DirConfigOf(config, dirName))| ::
           !EndsWith(file, IgnoredFiles(DirConfigOf(config, dirName))[k])
  {
  }

  /** An empty entry in `ignore.files` matches every file name, so the directory has no source files. */
  lemma EmptyIgnoredNameIgnoresAll(config: Config, dirName: string, file: string)
    requires "" in IgnoredFiles(DirConfigOf(config, dirName))
    ensures !IsSource(config, dirName, file)
  {
    var files := IgnoredFiles(DirConfigOf(config, dirName));
    var k :| 0 <= k < |files| && files[k] == "";
    assert EndsWith(file, files[k]);
  }

  /** In a directory without settings, a file is a source file exactly when its extension maps to a config. */
  lemma UnknownDirectorySources(config: Config, dirName: string, file: string)
    requires dirName !in config.directoryConfigs
    ensures IsSource(config, dirName, file) <==> ExtCfg(config, ExtensionOf(file)).Some?
  {
  }

  /** Every source file has a known extension, so compiling it does not fail with an unknown extension. */
  lemma SourceHasCompileCommand(config: Config, dirName: string, file: string)
    requires IsSource(config, dirName, file)
    ensures !GetCompileCmd(config, dirName, ExtensionOf(file)).UnknownExtension?
  {
  }

  /** `main.c` is a source file of a directory without settings when "c" maps to a config, whatever the case of its extension. */
  lemma UpperCaseExtensionIsSource(config: Config, dirName: string)
    requires dirName !in config.directoryConfigs && "c" in config.extensionMap
    ensures IsSource(config, dirName, "main.C")
  {
    ExtensionOfSimpleName("main", "C");
    assert "main" + "." + "C" == "main.C";
    assert Lower("C") == "c";
    assert ExtCfg(config, "C") == Some(config.extensionMap["c"]);
  }
}
