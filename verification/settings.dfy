/** The user-facing extension block and the configuration it is turned into. */
module Settings {

  /** `Config`: the serializable record `ResourcesOptTask` receives. */
  datatype Config = Config(
    repeatResOptEnable: bool,
    resNameOptEnable: bool,
    resNameOptWhiteRegexList: seq<string>,
    resNameOptPlaceholder: string)

  /** `Extension`: the values a build script sets. */
  datatype Extension = Extension(
    repeatResOptEnable: bool,
    resNameOptEnable: bool,
    resNameOptWhiteRegexList: seq<string>,
    resNameOptPlaceholder: string)

  /** The constructor defaults of `Config`. */
  const DefaultConfig := Config(true, true, [], "opt")

  /** The constructor defaults of `Extension`. */
  const DefaultExtension := Extension(true, true, [], "opt")

  /** `toConfig`: every setting is carried over unchanged, the pattern list in order. */
  function ToConfig(e: Extension): (c: Config)
    ensures c.repeatResOptEnable == e.repeatResOptEnable
    ensures c.resNameOptEnable == e.resNameOptEnable
    ensures c.resNameOptWhiteRegexList == e.resNameOptWhiteRegexList
    ensures c.resNameOptPlaceholder == e.resNameOptPlaceholder
  {
    Config(e.repeatResOptEnable, e.resNameOptEnable, e.resNameOptWhiteRegexList, e.resNameOptPlaceholder)
  }

  /** An untouched extension configures what an untouched `Config` holds: both
      optimisations on, no whitelist pattern, placeholder `opt`. */
  lemma DefaultsAgree()
    ensures ToConfig(DefaultExtension) == DefaultConfig
    ensures DefaultConfig.repeatResOptEnable && DefaultConfig.resNameOptEnable
    ensures DefaultConfig.resNameOptWhiteRegexList == [] && DefaultConfig.resNameOptPlaceholder == "opt"
  {
  }

  /** Nothing is lost in `toConfig`: different extensions give different configurations. */
  lemma ToConfigInjective(a: Extension, b: Extension)
    ensures ToConfig(a) == ToConfig(b) <==> a == b
  {
  }
}
