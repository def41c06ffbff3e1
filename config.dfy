/**
 * The configuration value: entries loaded from a `.env` file, read through a
 * file store, with non-empty process environment variables taking precedence
 * on lookup.
 *
 * `Config` is a value: every operation returns a new configuration and the
 * argument is left as it was. The process environment is the map `osEnv`; the
 * file store is a map from file name to contents, `None` when none was given;
 * the `.env` decoder is the function parameter `unmarshal`.
 */
module Config {
  import opened Wrappers
  import Strconv
  import Environment
  import Parser

  /** A read-only file store: the contents of each file it can open. */
  type FileSystem = map<string, string>

  datatype Config = Config(configMap: map<string, string>, fs: Option<FileSystem>, currentEnv: string)

  datatype ConfigError =
    | MissingValue(key: string)
    | NotAnInt(key: string)
    | NilFileSystem
    | ReadFailed(file: string)
    | ParseFailed(cause: string)

  /** A result paired with an optional error, as the Go functions return both. */
  datatype Returned<T> = Returned(value: T, err: Option<ConfigError>)

  /** The decoder's result: the entries it produced, and its error message if it failed. */
  datatype Unmarshalled = Unmarshalled(entries: map<string, string>, err: Option<string>)

  const LoadPrefix: string := "error loading config"

  /** The text of each error. */
  function Message(e: ConfigError): (m: string)
    ensures (e.MissingValue? || e.NotAnInt?) ==> |m| >= |e.key| && m[|m| - |e.key|..] == e.key
    ensures (e.NilFileSystem? || e.ReadFailed? || e.ParseFailed?) ==> |m| >= |LoadPrefix| && m[..|LoadPrefix|] == LoadPrefix
  {
    match e
    case MissingValue(key) => "missing value in config: " + key
    case NotAnInt(key) => "error converting config value to int with key: " + key
    case NilFileSystem => LoadPrefix + ", fs was nil"
    case ReadFailed(file) => LoadPrefix + ": open " + file + ": file does not exist"
    case ParseFailed(cause) => LoadPrefix + ": " + cause
  }

  /** `os.Getenv`: the variable's value, the empty string when it is unset. */
  function Getenv(osEnv: map<string, string>, key: string): string {
    if key in osEnv then osEnv[key] else ""
  }

  /**
   * The entries a lookup sees: those of the configuration map, overridden by
   * every environment variable whose value is not empty.
   */
  function Effective(c: Config, osEnv: map<string, string>): map<string, string> {
    c.configMap + map k | k in osEnv && osEnv[k] != "" :: osEnv[k]
  }

  /**
   * `GetKey`: a non-empty environment variable, else the configuration entry,
   * else the empty string with a "missing value" error.
   */
  function GetKey(c: Config, osEnv: map<string, string>, key: string): (r: Returned<string>)
    ensures r.err.None? <==> key in Effective(c, osEnv)
    ensures r.err.None? ==> r.value == Effective(c, osEnv)[key]
    ensures r.err.Some? ==> r == Returned("", Some(MissingValue(key)))
  {
    var val := Getenv(osEnv, key);
    if val != "" then Returned(val, None)
    else if key in c.configMap then Returned(c.configMap[key], None)
    else Returned("", Some(MissingValue(key)))
  }

  /** A variable set to the empty string is looked past, exactly as an unset one. */
  lemma EmptyVariableIgnored(c: Config, osEnv: map<string, string>, key: string)
    requires key in osEnv && osEnv[key] == ""
    ensures GetKey(c, osEnv, key) == GetKey(c, osEnv - {key}, key)
  {
  }

  /** A non-empty variable wins over the configuration entry of the same name. */
  lemma VariableOverridesEntry(c: Config, osEnv: map<string, string>, key: string)
    requires key in osEnv && osEnv[key] != ""
    ensures GetKey(c, osEnv, key) == Returned(osEnv[key], None)
  {
    assert key in Effective(c, osEnv);
  }

  /**
   * `GetKeyAsInt`: the value `GetKey` finds, converted by `strconv.Atoi`; 0 with
   * an error when the key is missing or the value is not a 64-bit integer.
   */
  function GetKeyAsInt(c: Config, osEnv: map<string, string>, key: string): (r: Returned<int>)
    ensures r.err.Some? ==> r.value == 0
    ensures r.err == Some(MissingValue(key)) <==> key !in Effective(c, osEnv)
    ensures r.err == Some(NotAnInt(key)) <==>
              key in Effective(c, osEnv) && Strconv.Atoi(Effective(c, osEnv)[key]).None?
    ensures r.err.None? ==> key in Effective(c, osEnv) && Strconv.Atoi(Effective(c, osEnv)[key]) == Some(r.value)
    ensures r.err.None? || r.err == Some(MissingValue(key)) || r.err == Some(NotAnInt(key))
  {
    var got := GetKey(c, osEnv, key);
    if got.err.Some? then Returned(0, got.err)
    else
      match Strconv.Atoi(got.value)
      case None => Returned(0, Some(NotAnInt(key)))
      case Some(i) => Returned(i, None)
  }

  /** An entry holding the decimal form of a 64-bit integer reads back as that integer. */
  lemma GetKeyAsIntOfFormatted(c: Config, osEnv: map<string, string>, key: string, n: int)
    requires Strconv.MinInt64 <= n <= Strconv.MaxInt64
    requires key in Effective(c, osEnv) && Effective(c, osEnv)[key] == Strconv.Itoa(n)
    ensures GetKeyAsInt(c, osEnv, key) == Returned(n, None)
  {
    Strconv.AtoiItoa(n);
  }

  /** `NewConfig`: an empty map over the given file store, no environment chosen. */
  function NewConfig(fs: Option<FileSystem>): (c: Config)
    ensures c.fs == fs && c.currentEnv == "" && |c.configMap| == 0
  {
    Config(map[], fs, "")
  }

  /** A new configuration answers only from the environment variables. */
  lemma NewConfigSeesOnlyVariables(fs: Option<FileSystem>, osEnv: map<string, string>, key: string)
    ensures GetKey(NewConfig(fs), osEnv, key).err.None? <==> Getenv(osEnv, key) != ""
  {
    var c := NewConfig(fs);
    if key in Effective(c, osEnv) {
      assert key !in c.configMap;
    }
  }

  /** `WithEnvironment`: the same configuration with `currentEnv` replaced. */
  function WithEnvironment(c: Config, currentEnv: string): (r: Config)
    ensures r.currentEnv == currentEnv && r.configMap == c.configMap && r.fs == c.fs
  {
    c.(currentEnv := currentEnv)
  }

  /** Of two environments set one after the other, the last one counts. */
  lemma WithEnvironmentLastWins(c: Config, first: string, second: string)
    ensures WithEnvironment(WithEnvironment(c, first), second) == WithEnvironment(c, second)
  {
  }

  /** The file `Load` reads: `{currentEnv}.env`, or `default.env` when no environment is set. */
  function ConfigFileName(currentEnv: string): (file: string)
    ensures currentEnv != "" ==> file == currentEnv + ".env"
    ensures currentEnv == "" ==> file == "default.env"
  {
    if currentEnv != "" then currentEnv + ".env" else "default.env"
  }

  /**
   * The file name `Load` uses is the one the environment rule picks when its
   * variable is absent and `currentEnv` is the fallback.
   */
  lemma ConfigFileNameIsEnvironmentFallback(osEnv: map<string, string>, environmentKey: string, currentEnv: string)
    requires environmentKey !in osEnv
    ensures ConfigFileName(currentEnv) == Environment.GetEnvironment(osEnv, environmentKey, currentEnv)
  {
  }

  /**
   * `Load` as the Go code has it: on a decoder error the returned configuration
   * already carries whatever map the decoder returned.
   */
  function LoadAsWritten(c: Config, unmarshal: string -> Unmarshalled): (r: Returned<Config>)
    ensures r.value.fs == c.fs && r.value.currentEnv == c.currentEnv
    ensures r.err.None? <==> Loadable(c, unmarshal)
    ensures c.fs.None? ==> r == Returned(c, Some(NilFileSystem))
    ensures c.fs.Some? && ConfigFileName(c.currentEnv) !in c.fs.value ==>
      r == Returned(c, Some(ReadFailed(ConfigFileName(c.currentEnv))))
    ensures c.fs.Some? && ConfigFileName(c.currentEnv) in c.fs.value ==>
      var u := unmarshal(c.fs.value[ConfigFileName(c.currentEnv)]);
      r.value == c.(configMap := u.entries) &&
      (u.err.Some? ==> r.err == Some(ParseFailed(u.err.value)))
  {
    if c.fs.None? then Returned(c, Some(NilFileSystem))
    else
      var file := ConfigFileName(c.currentEnv);
      if file !in c.fs.value then Returned(c, Some(ReadFailed(file)))
      else
        var u := unmarshal(c.fs.value[file]);
        var loaded := c.(configMap := u.entries);
        if u.err.Some? then Returned(loaded, Some(ParseFailed(u.err.value)))
        else Returned(loaded, None)
  }

  /** Whether the chosen file can be read and decoded. */
  predicate Loadable(c: Config, unmarshal: string -> Unmarshalled) {
    c.fs.Some? && ConfigFileName(c.currentEnv) in c.fs.value &&
    unmarshal(c.fs.value[ConfigFileName(c.currentEnv)]).err.None?
  }

  /**
   * `Load`: read the file `ConfigFileName(currentEnv)` from the store and decode
   * it into the configuration map. Every error leaves the configuration as it
   * was; success replaces the map and nothing else.
   */
  function Load(c: Config, unmarshal: string -> Unmarshalled): (r: Returned<Config>)
    ensures r.err.None? <==> Loadable(c, unmarshal)
    ensures r.err.Some? ==> r.value == c
    ensures r.err.None? ==>
              r.value == c.(configMap := unmarshal(c.fs.value[ConfigFileName(c.currentEnv)]).entries)
    ensures r.err == Some(NilFileSystem) <==> c.fs.None?
    ensures r.err == Some(ReadFailed(ConfigFileName(c.currentEnv))) <==>
              c.fs.Some? && ConfigFileName(c.currentEnv) !in c.fs.value
    ensures r.err.Some? && r.err.value.ParseFailed? ==>
              c.fs.Some? && ConfigFileName(c.currentEnv) in c.fs.value &&
              unmarshal(c.fs.value[ConfigFileName(c.currentEnv)]).err == Some(r.err.value.cause)
  {
    if c.fs.None? then Returned(c, Some(NilFileSystem))
    else
      var file := ConfigFileName(c.currentEnv);
      if file !in c.fs.value then Returned(c, Some(ReadFailed(file)))
      else
        var u := unmarshal(c.fs.value[file]);
        if u.err.Some? then Returned(c, Some(ParseFailed(u.err.value)))
        else Returned(c.(configMap := u.entries), None)
  }

  /** The two versions of `Load` report the same errors and agree whenever there is none. */
  lemma LoadAgreesWithLoadAsWritten(c: Config, unmarshal: string -> Unmarshalled)
    ensures Load(c, unmarshal).err == LoadAsWritten(c, unmarshal).err
    ensures Load(c, unmarshal).err.None? ==> Load(c, unmarshal) == LoadAsWritten(c, unmarshal)
  {
  }

  /**
   * The code as written does not keep the configuration on a decoder error: a
   * configuration holding `A=1` whose file fails to decode comes back with the
   * decoder's empty map.
   */
  lemma LoadAsWrittenDropsEntriesOnParseError()
    ensures var c := Config(map["A" := "1"], Some(map["default.env" := "A"]), "");
      var r := LoadAsWritten(c, _ => Unmarshalled(map[], Some("unexpected character")));
      r.err == Some(ParseFailed("unexpected character")) && r.value != c
  {
    var c := Config(map["A" := "1"], Some(map["default.env" := "A"]), "");
    var r := LoadAsWritten(c, _ => Unmarshalled(map[], Some("unexpected character")));
    assert "A" !in r.value.configMap;
  }

  /** Loading again after a successful load changes nothing. */
  lemma LoadIdempotent(c: Config, unmarshal: string -> Unmarshalled)
    requires Load(c, unmarshal).err.None?
    ensures Load(Load(c, unmarshal).value, unmarshal) == Load(c, unmarshal)
  {
  }

  /**
   * After a successful load, a key with no non-empty variable reads the entry
   * the decoder produced for it.
   */
  lemma LoadedEntriesAreLookedUp(c: Config, unmarshal: string -> Unmarshalled, osEnv: map<string, string>, key: string)
    requires Loadable(c, unmarshal)
    requires Getenv(osEnv, key) == ""
    ensures var entries := unmarshal(c.fs.value[ConfigFileName(c.currentEnv)]).entries;
      GetKey(Load(c, unmarshal).value, osEnv, key) ==
        if key in entries then Returned(entries[key], None) else Returned("", Some(MissingValue(key)))
  {
    var entries := unmarshal(c.fs.value[ConfigFileName(c.currentEnv)]).entries;
    var loaded := Load(c, unmarshal).value;
    assert loaded.configMap == entries;
    if key in Effective(loaded, osEnv) {
      assert key in entries;
    }
  }

  /** The repository's own line parser, used as the decoder. */
  function ParserUnmarshal(data: string): (u: Unmarshalled)
    ensures u.err.None? <==> Parser.ParseText(data).Success?
    ensures u.err.None? ==> u.entries == Parser.ParseText(data).value
    ensures u.err.Some? ==> u.err.value == Parser.Message(Parser.ParseText(data).error)
  {
    match Parser.ParseText(data)
    case Success(m) => Unmarshalled(m, None)
    case Failure(e) => Unmarshalled(map[], Some(Parser.Message(e)))
  }

  /**
   * A new configuration over a store whose `default.env` holds `TEST_KEY=123`
   * loads that entry, and it reads back as the integer 123.
   */
  lemma LoadsDefaultFile(data: string)
    requires data == "TEST_KEY=123"
    ensures var c := NewConfig(Some(map["default.env" := data]));
      var r := Load(c, ParserUnmarshal);
      r == Returned(c.(configMap := map["TEST_KEY" := "123"]), None) &&
      GetKeyAsInt(r.value, map[], "TEST_KEY") == Returned(123, None)
  {
    Parser.ParsesSinglePair(data);
    Strconv.ConvertsDecimal();
    var c := NewConfig(Some(map["default.env" := data]));
    assert ConfigFileName(c.currentEnv) == "default.env";
    var r := Load(c, ParserUnmarshal);
    assert r.value.configMap == map["TEST_KEY" := "123"];
    assert Effective(r.value, map[]) == r.value.configMap;
  }

  /** With the environment `custom` and no `custom.env` in the store, loading fails and keeps the configuration. */
  lemma MissingEnvironmentFileFails(fs: FileSystem, unmarshal: string -> Unmarshalled)
    requires "custom.env" !in fs
    ensures var c := WithEnvironment(NewConfig(Some(fs)), "custom");
      Load(c, unmarshal) == Returned(c, Some(ReadFailed("custom.env")))
  {
    assert ConfigFileName("custom") == "custom.env";
  }
}
