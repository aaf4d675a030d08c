/** The configuration logic of `main`: command-line values overridden by
    the config file, and the executable suffix added on Windows. Values are
    kept as the strings they are before `float(...)`/`int(...)` reads them. */
module Sweep {
  import opened Text
  import ConfigFile

  /** The settings a sweep needs, one field per recognised key. */
  datatype Settings = Settings(
    tmin: string,
    tmax: string,
    tstep: string,
    steps: string,
    binary: string,
    base: string)

  /** The command-line defaults. */
  const Defaults := Settings("0", "500", "100", "11", "./uppasd", "Base")

  /** The config-file keys `main` reads; any other key is ignored. */
  const RecognisedKeys: set<string> := {"tmin", "tmax", "tstep", "steps", "binary", "base"}

  /** The field of `s` a recognised key names. */
  function Field(s: Settings, key: string): string
    requires key in RecognisedKeys
  {
    if key == "tmin" then s.tmin
    else if key == "tmax" then s.tmax
    else if key == "tstep" then s.tstep
    else if key == "steps" then s.steps
    else if key == "binary" then s.binary
    else s.base
  }

  /** `config.get(key, default)`. */
  function Get(config: ConfigFile.Config, key: string, default: string): string {
    if key in config then config[key] else default
  }

  /** The overrides of `main`: each recognised key takes the config value
      when the file has one and keeps the command-line value otherwise. */
  function Resolve(config: ConfigFile.Config, cli: Settings): (r: Settings)
    ensures forall key :: key in RecognisedKeys ==>
      Field(r, key) == if key in config then config[key] else Field(cli, key)
  {
    Settings(
      Get(config, "tmin", cli.tmin),
      Get(config, "tmax", cli.tmax),
      Get(config, "tstep", cli.tstep),
      Get(config, "steps", cli.steps),
      Get(config, "binary", cli.binary),
      Get(config, "base", cli.base))
  }

  /** Two settings agree exactly when every recognised key reads the same. */
  lemma SettingsByFields(a: Settings, b: Settings)
    requires forall key :: key in RecognisedKeys ==> Field(a, key) == Field(b, key)
    ensures a == b
  {
    assert Field(a, "tmin") == Field(b, "tmin");
    assert Field(a, "tmax") == Field(b, "tmax");
    assert Field(a, "tstep") == Field(b, "tstep");
    assert Field(a, "steps") == Field(b, "steps");
    assert Field(a, "binary") == Field(b, "binary");
    assert Field(a, "base") == Field(b, "base");
  }

  /** Keys outside the recognised six have no effect. */
  lemma ResolveIgnoresOtherKeys(config: ConfigFile.Config, cli: Settings)
    ensures Resolve(config, cli) == Resolve(map k | k in config && k in RecognisedKeys :: config[k], cli)
  {
    var kept := map k | k in config && k in RecognisedKeys :: config[k];
    SettingsByFields(Resolve(config, cli), Resolve(kept, cli));
  }

  /** An empty config file changes nothing. */
  lemma ResolveEmpty(cli: Settings)
    ensures Resolve(map[], cli) == cli
  {
    SettingsByFields(Resolve(map[], cli), cli);
  }

  /** The settings `main` sweeps with: the command line, overridden by the
      config file when one is given (as its lines). End to end, a recognised
      key takes the value of the last line of the file that sets it, and
      keeps its command-line value when no line does. */
  function FromFile(file: Option<seq<string>>, cli: Settings): (r: Settings)
    ensures file.None? ==> r == cli
    ensures file.Some? ==> forall key :: key in RecognisedKeys ==>
      var last := ConfigFile.LastDefinition(ConfigFile.Entries(file.value), key);
      Field(r, key) ==
        if last.Some? then ConfigFile.ParseLine(file.value[last.value]).value.1 else Field(cli, key)
  {
    match file
    case None => cli
    case Some(lines) =>
      ResolveLastLine(lines, cli);
      Resolve(ConfigFile.ParseConfig(lines), cli)
  }

  lemma ResolveLastLine(lines: seq<string>, cli: Settings)
    ensures forall key :: key in RecognisedKeys ==>
      var last := ConfigFile.LastDefinition(ConfigFile.Entries(lines), key);
      Field(Resolve(ConfigFile.ParseConfig(lines), cli), key) ==
        if last.Some? then ConfigFile.ParseLine(lines[last.value]).value.1 else Field(cli, key)
  {
    forall key | key in RecognisedKeys {
      ConfigFile.CollectIsLastDefinition(ConfigFile.Entries(lines), key);
    }
  }

  /** The sample config file over the command-line defaults: the keys it
      sets are replaced, `steps` and `base` keep their defaults. */
  lemma ExampleSettings()
    ensures FromFile(Some(ConfigFile.ExampleLines), Defaults) ==
      Settings("100", "300", "100", "11", "/opt/sim", "Base")
  {
    ConfigFile.ParseConfigExample();
    ResolveExample(ConfigFile.ParseConfig(ConfigFile.ExampleLines));
  }

  lemma ResolveExample(config: ConfigFile.Config)
    requires config == map["tmin" := "100", "tmax" := "300", "tstep" := "100", "binary" := "/opt/sim"]
    ensures Resolve(config, Defaults) == Settings("100", "300", "100", "11", "/opt/sim", "Base")
  {
    assert "steps" !in config && "base" !in config;
  }

  /** `sys.platform.startswith("win")`. */
  predicate IsWindows(platform: string) {
    StartsWith(platform, "win")
  }

  /** On Windows a binary path whose lower-cased form does not end in `.exe`
      gets `.exe` appended; on every other platform it is kept. */
  function WithExeSuffix(platform: string, binary: string): (r: string)
    ensures !IsWindows(platform) ==> r == binary
    ensures IsWindows(platform) ==> EndsWithIgnoringCase(r, ".exe")
    ensures r == binary || r == binary + ".exe"
    ensures r != binary <==> IsWindows(platform) && !EndsWithIgnoringCase(binary, ".exe")
  {
    if IsWindows(platform) && !EndsWithIgnoringCase(binary, ".exe") then
      LowerAppend(binary, ".exe");
      assert Lower(".exe") == ".exe";
      binary + ".exe"
    else
      binary
  }

  /** Adding the suffix twice is adding it once. */
  lemma WithExeSuffixIdempotent(platform: string, binary: string)
    ensures WithExeSuffix(platform, WithExeSuffix(platform, binary)) == WithExeSuffix(platform, binary)
  {
  }

  /** Any casing of `.exe` counts: `sim.EXE` is kept as it is. */
  lemma UpperCaseExeKept(platform: string)
    ensures WithExeSuffix(platform, "sim.EXE") == "sim.EXE"
  {
    assert Lower("sim.EXE") == "sim.exe";
  }
}
