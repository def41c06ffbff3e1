/**
 * Choice of the environment file: an environment variable named by the caller
 * wins whenever it is present, then the caller's fallback when it is not empty,
 * then `default`; the chosen name gets the `.env` extension.
 *
 * The process environment is the map `osEnv` from variable name to value; a
 * variable that is present with an empty value is in the map.
 */
module Environment {
  const DefaultEnvironment: string := "default"
  const FileExtension: string := ".env"

  /** The file name for an environment name. */
  function BuildFilename(env: string): (name: string)
    ensures |name| == |env| + |FileExtension|
    ensures name[..|env|] == env && name[|env|..] == FileExtension
  {
    env + FileExtension
  }

  /** The environment name a file name was built from: the extension taken off again. */
  function StripExtension(name: string): string
    requires |name| >= |FileExtension|
  {
    name[..|name| - |FileExtension|]
  }

  /**
   * The environment file to load, chosen from the variable `environmentKey`
   * (present, even with an empty value), else the non-empty fallback
   * `environment`, else `default`.
   */
  function GetEnvironment(osEnv: map<string, string>, environmentKey: string, environment: string): (file: string)
    ensures environmentKey in osEnv ==> file == BuildFilename(osEnv[environmentKey])
    ensures environmentKey !in osEnv && environment != "" ==> file == BuildFilename(environment)
    ensures environmentKey !in osEnv && environment == "" ==> file == BuildFilename(DefaultEnvironment)
  {
    if environmentKey in osEnv then BuildFilename(osEnv[environmentKey])
    else if environment != "" then BuildFilename(environment)
    else BuildFilename(DefaultEnvironment)
  }

  /** Taking the extension off a built file name gives back the name it was built from. */
  lemma StripBuiltFilename(env: string)
    ensures StripExtension(BuildFilename(env)) == env
  {
    assert |BuildFilename(env)| - |FileExtension| == |env|;
  }

  /** Distinct environment names never share a file. */
  lemma BuildFilenameInjective(a: string, b: string)
    requires BuildFilename(a) == BuildFilename(b)
    ensures a == b
  {
    StripBuiltFilename(a);
    StripBuiltFilename(b);
  }

  /** Every chosen file ends in `.env`. */
  lemma ChosenFileHasExtension(osEnv: map<string, string>, environmentKey: string, environment: string)
    ensures var file := GetEnvironment(osEnv, environmentKey, environment);
      |file| >= |FileExtension| && file[|file| - |FileExtension|..] == FileExtension
  {
  }

  /** A variable that is present but empty still wins, and names the bare file `.env`. */
  lemma EmptyVariableWins(osEnv: map<string, string>, environmentKey: string, environment: string)
    requires environmentKey in osEnv && osEnv[environmentKey] == ""
    ensures GetEnvironment(osEnv, environmentKey, environment) == FileExtension
  {
  }

  /** While the variable is present the fallback makes no difference. */
  lemma FallbackIgnoredWhenSet(osEnv: map<string, string>, environmentKey: string, e1: string, e2: string)
    requires environmentKey in osEnv
    ensures GetEnvironment(osEnv, environmentKey, e1) == GetEnvironment(osEnv, environmentKey, e2)
  {
  }

  /** Only the variable named by `environmentKey` is consulted. */
  lemma OnlyTheKeyIsRead(env1: map<string, string>, env2: map<string, string>, environmentKey: string, environment: string)
    requires environmentKey in env1 <==> environmentKey in env2
    requires environmentKey in env1 ==> env1[environmentKey] == env2[environmentKey]
    ensures GetEnvironment(env1, environmentKey, environment) == GetEnvironment(env2, environmentKey, environment)
  {
  }

  /**
   * The environment chosen, read back from the file name: the variable's value,
   * else the fallback, else `default`.
   */
  lemma ChosenEnvironment(osEnv: map<string, string>, environmentKey: string, environment: string)
    ensures var name := StripExtension(GetEnvironment(osEnv, environmentKey, environment));
      (environmentKey in osEnv ==> name == osEnv[environmentKey]) &&
      (environmentKey !in osEnv ==> name == if environment != "" then environment else DefaultEnvironment)
  {
    if environmentKey in osEnv {
      StripBuiltFilename(osEnv[environmentKey]);
    } else if environment != "" {
      StripBuiltFilename(environment);
    } else {
      StripBuiltFilename(DefaultEnvironment);
    }
  }

  /**
   * `default.env` is chosen exactly when the variable says `default`, or is absent
   * and the fallback is `default` or empty.
   */
  lemma DefaultFileChosen(osEnv: map<string, string>, environmentKey: string, environment: string)
    ensures (GetEnvironment(osEnv, environmentKey, environment) == BuildFilename(DefaultEnvironment)) <==>
              ((environmentKey in osEnv && osEnv[environmentKey] == DefaultEnvironment) ||
               (environmentKey !in osEnv && (environment == DefaultEnvironment || environment == "")))
  {
    var file := GetEnvironment(osEnv, environmentKey, environment);
    if file == BuildFilename(DefaultEnvironment) {
      if environmentKey in osEnv {
        BuildFilenameInjective(osEnv[environmentKey], DefaultEnvironment);
      } else if environment != "" {
        BuildFilenameInjective(environment, DefaultEnvironment);
      }
    }
  }
}
