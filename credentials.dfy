/** Writing the temporary credentials into the credentials file. Reading and writing the
    file are not modelled: the file is its parsed content, a map from section name to a map
    from key to value, as configparser holds it. */
module CredentialFile {
  import opened Wrappers

  type Section = map<string, string>
  type Config = map<string, Section>

  /** configparser's defaults section: never reported by has_section, refused by add_section. */
  const DEFAULT_SECTION := "DEFAULT"

  const DEFAULT_CONFIG_FILE := "/.aws/credentials"
  const DEFAULT_REGION := "eu-west-1"
  const DEFAULT_OUTPUT_FORMAT := "json"

  /** The `Credentials` part of the role assumption's answer. */
  datatype Credentials = Credentials(accessKeyId: string, secretAccessKey: string, sessionToken: string)

  datatype ConfigError = InvalidSectionName(name: string) | DuplicateSection(name: string)

  /** has_section: the defaults section is never reported. */
  predicate HasSection(config: Config, section: string): (b: bool)
    ensures b ==> section in config
    ensures section == DEFAULT_SECTION ==> !b
  {
    section != DEFAULT_SECTION && section in config
  }

  /** add_section: a new, empty section, refused for the defaults section's name and for
      a section that is already there. */
  function AddSection(config: Config, section: string): (r: Result<Config, ConfigError>)
    ensures r.Success? <==> section != DEFAULT_SECTION && section !in config
    ensures r.Success? ==> r.value == config[section := map[]]
  {
    if section == DEFAULT_SECTION then Failure(InvalidSectionName(section))
    else if section in config then Failure(DuplicateSection(section))
    else Success(config[section := map[]])
  }

  /** The section `set` writes into: an empty name, like the defaults section's own name,
      addresses the defaults. */
  function TargetSection(section: string): string {
    if section == "" || section == DEFAULT_SECTION then DEFAULT_SECTION else section
  }

  /** set: one key of the addressed section; the defaults section is created on its first
      key. A named section other than the defaults has to be there. */
  function SetOption(config: Config, section: string, key: string, value: string): (r: Config)
    requires TargetSection(section) == DEFAULT_SECTION || section in config
    ensures r.Keys == config.Keys + {TargetSection(section)}
    ensures r[TargetSection(section)] ==
              (if TargetSection(section) in config then config[TargetSection(section)] else map[])[key := value]
    ensures forall s :: s in config && s != TargetSection(section) ==> r[s] == config[s]
  {
    var target := TargetSection(section);
    var current := if target in config then config[target] else map[];
    config[target := current[key := value]]
  }

  /** Setting a key in a section that was just written replaces that write. */
  lemma SetOnto(config: Config, section: string, current: Section, key: string, value: string)
    ensures SetOption(config[TargetSection(section) := current], section, key, value) ==
              config[TargetSection(section) := current[key := value]]
  {
    var target := TargetSection(section);
    var r := SetOption(config[target := current], section, key, value);
    assert r.Keys == config.Keys + {target};
    forall s | s in r ensures r[s] == config[target := current[key := value]][s] {
    }
  }

  class AwsConfigFile {
    const profile: string
    const configFile: string
    const region: string
    const outputFormat: string

    constructor(profile: string, configFile: string := DEFAULT_CONFIG_FILE, region: string := DEFAULT_REGION,
                outputFormat: string := DEFAULT_OUTPUT_FORMAT)
      ensures this.profile == profile && this.configFile == configFile
      ensures this.region == region && this.outputFormat == outputFormat
    {
      this.profile := profile;
      this.configFile := configFile;
      this.region := region;
      this.outputFormat := outputFormat;
    }

    /** The five keys the profile section holds after an update. */
    function Entries(credentials: Credentials): Section {
      map["output" := outputFormat, "region" := region,
          "aws_access_key_id" := credentials.accessKeyId,
          "aws_secret_access_key" := credentials.secretAccessKey,
          "aws_session_token" := credentials.sessionToken]
    }

    /** update: the profile section is created when missing, and its five keys are set in
        the section `set` addresses, which for the empty profile name is the defaults
        section (then inherited by every profile). Every other section, and every other key
        of the written section, is kept. Naming the profile after the defaults section
        raises. */
    method Update(config: Config, credentials: Credentials) returns (result: Result<Config, ConfigError>)
      ensures profile == DEFAULT_SECTION <==> result.Failure?
      ensures result.Failure? ==> result.error == InvalidSectionName(profile)
      ensures result.Success? ==>
                result.value.Keys == config.Keys + {profile, TargetSection(profile)} &&
                (forall s :: s in config && s != TargetSection(profile) ==> result.value[s] == config[s]) &&
                result.value[TargetSection(profile)] ==
                  (if TargetSection(profile) in config then config[TargetSection(profile)] else map[]) +
                  Entries(credentials)
      // the empty profile's own section is added empty and stays so
      ensures result.Success? && profile == "" && profile !in config ==> result.value[profile] == map[]
    {
      var data := config;
      if !HasSection(data, profile) {
        var added := AddSection(data, profile);
        if added.Failure? {
          return Failure(added.error);
        }
        data := added.value;
      }
      ghost var added := data;
      data := SetEntries(data, credentials);
      assert (if TargetSection(profile) in added then added[TargetSection(profile)] else map[]) ==
             (if TargetSection(profile) in config then config[TargetSection(profile)] else map[]);
      return Success(data);
    }

    /** The five `config.set` calls of an update, in their order. */
    method SetEntries(config: Config, credentials: Credentials) returns (data: Config)
      requires TargetSection(profile) == DEFAULT_SECTION || profile in config
      ensures data == config[TargetSection(profile) :=
                (if TargetSection(profile) in config then config[TargetSection(profile)] else map[]) +
                Entries(credentials)]
    {
      data := SetOption(config, profile, "output", outputFormat);
      data := SetOption(data, profile, "region", region);
      data := SetOption(data, profile, "aws_access_key_id", credentials.accessKeyId);
      data := SetOption(data, profile, "aws_secret_access_key", credentials.secretAccessKey);
      data := SetOption(data, profile, "aws_session_token", credentials.sessionToken);
      SetAll(config, profile, credentials);
    }

    /** The five `set` calls of an update write the entries into the addressed section at
        once and leave every other section alone. */
    lemma SetAll(config: Config, section: string, credentials: Credentials)
      requires TargetSection(section) == DEFAULT_SECTION || section in config
      ensures SetOption(SetOption(SetOption(SetOption(SetOption(config, section, "output", outputFormat),
                section, "region", region), section, "aws_access_key_id", credentials.accessKeyId),
                section, "aws_secret_access_key", credentials.secretAccessKey),
                section, "aws_session_token", credentials.sessionToken) ==
              config[TargetSection(section) :=
                (if TargetSection(section) in config then config[TargetSection(section)] else map[]) +
                Entries(credentials)]
    {
      var target := TargetSection(section);
      var base := if target in config then config[target] else map[];
      var s1 := base["output" := outputFormat];
      var s2 := s1["region" := region];
      var s3 := s2["aws_access_key_id" := credentials.accessKeyId];
      var s4 := s3["aws_secret_access_key" := credentials.secretAccessKey];
      var s5 := s4["aws_session_token" := credentials.sessionToken];
      var c1 := SetOption(config, section, "output", outputFormat);
      assert c1 == config[target := s1];
      SetOnto(config, section, s1, "region", region);
      var c2 := SetOption(c1, section, "region", region);
      SetOnto(config, section, s2, "aws_access_key_id", credentials.accessKeyId);
      var c3 := SetOption(c2, section, "aws_access_key_id", credentials.accessKeyId);
      SetOnto(config, section, s3, "aws_secret_access_key", credentials.secretAccessKey);
      var c4 := SetOption(c3, section, "aws_secret_access_key", credentials.secretAccessKey);
      SetOnto(config, section, s4, "aws_session_token", credentials.sessionToken);
      SetFive(base, credentials);
    }
    /** Setting the five keys one after the other overrides them in the section at once. */
    lemma SetFive(base: Section, credentials: Credentials)
      ensures base["output" := outputFormat]["region" := region]
                  ["aws_access_key_id" := credentials.accessKeyId]
                  ["aws_secret_access_key" := credentials.secretAccessKey]
                  ["aws_session_token" := credentials.sessionToken] == base + Entries(credentials)
    {
      var stepwise := base["output" := outputFormat]["region" := region]
                  ["aws_access_key_id" := credentials.accessKeyId]
                  ["aws_secret_access_key" := credentials.secretAccessKey]
                  ["aws_session_token" := credentials.sessionToken];
      var union := base + Entries(credentials);
      assert stepwise.Keys == union.Keys;
      forall k | k in stepwise ensures stepwise[k] == union[k] {
      }
    }
  }
}
