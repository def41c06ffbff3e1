/**
 * Choice of the profile file. The profile package repeats the environment
 * package's rule with its own names: the variable `profileKey` wins whenever
 * it is present, then the non-empty fallback `profile`, then `default`, and
 * the name gets the `.env` extension.
 */
module Profile {
  import Environment

  const DefaultProfile: string := "default"
  const FileExtension: string := ".env"

  /** The file name for a profile name: the name, then the extension. */
  function BuildFilename(profile: string): (name: string)
    ensures |name| == |profile| + |FileExtension|
    ensures name[..|profile|] == profile && name[|profile|..] == FileExtension
  {
    profile + FileExtension
  }

  /** The profile file to load; it is always the file the environment rule chooses for the same inputs. */
  function GetProfile(osEnv: map<string, string>, profileKey: string, profile: string): (file: string)
    ensures file == Environment.GetEnvironment(osEnv, profileKey, profile)
  {
    if profileKey in osEnv then BuildFilename(osEnv[profileKey])
    else if profile != "" then BuildFilename(profile)
    else BuildFilename(DefaultProfile)
  }

  /** The profile chosen, read back from the file name: the variable's value, else the fallback, else `default`. */
  lemma ChosenProfile(osEnv: map<string, string>, profileKey: string, profile: string)
    ensures var file := GetProfile(osEnv, profileKey, profile);
      |file| >= |FileExtension| && file[|file| - |FileExtension|..] == FileExtension &&
      (profileKey in osEnv ==> file[..|file| - |FileExtension|] == osEnv[profileKey]) &&
      (profileKey !in osEnv ==> file[..|file| - |FileExtension|] == if profile != "" then profile else DefaultProfile)
  {
    Environment.ChosenEnvironment(osEnv, profileKey, profile);
  }
}
