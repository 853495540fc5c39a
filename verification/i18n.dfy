/** Package `i18n_tools`: `I18NBuilder`, a translation table `key -> lang -> value` and its
    inversion `lang -> key -> key` built when the table is created. */
module I18n {
  import opened Wrappers

  /** `map[key]map[lang]value`. */
  type Config = map<string, map<string, string>>

  datatype Builder = Builder(langConfig: Config, keyConfig: map<string, map<string, string>>)

  /** Key `key` has a translation into `lang`. */
  predicate Has(config: Config, key: string, lang: string)
  {
    key in config && lang in config[key]
  }

  /** `keyConfig` is the inversion of `config`: the languages it lists are exactly those some key
      is translated into, under each the keys translated into it, each mapped to itself. */
  ghost predicate Inverts(config: Config, keyConfig: map<string, map<string, string>>)
  {
    (forall lang, key :: lang in keyConfig && key in keyConfig[lang] ==>
      Has(config, key, lang) && keyConfig[lang][key] == key)
    && (forall key, lang :: Has(config, key, lang) ==> lang in keyConfig && key in keyConfig[lang])
    && (forall lang :: lang in keyConfig ==> exists key :: key in keyConfig[lang])
  }

  /** The inversion after the keys in `done`, and the languages `seen` of `key`, are visited. */
  ghost predicate Partial(config: Config, keyConfig: map<string, map<string, string>>,
                          done: set<string>, key: string, seen: set<string>)
  {
    (forall l, k :: l in keyConfig && k in keyConfig[l] ==>
      Has(config, k, l) && keyConfig[l][k] == k && (k in done || (k == key && l in seen)))
    && (forall k, l :: Has(config, k, l) && (k in done || (k == key && l in seen)) ==>
      l in keyConfig && k in keyConfig[l])
    && (forall l :: l in keyConfig ==> exists k :: k in keyConfig[l])
  }

  /** Records that `key` is translated into `lang`. */
  function AddPair(keyConfig: map<string, map<string, string>>, lang: string, key: string): (r: map<string, map<string, string>>)
    ensures lang in r && key in r[lang] && r[lang][key] == key
  {
    keyConfig[lang := (if lang in keyConfig then keyConfig[lang] else map[])[key := key]]
  }

  /** One step of the inner loop: visiting one more language of `key`. */
  lemma AddPairStep(config: Config, keyConfig: map<string, map<string, string>>,
                    done: set<string>, key: string, seen: set<string>, lang: string)
    requires Partial(config, keyConfig, done, key, seen)
    requires Has(config, key, lang)
    ensures Partial(config, AddPair(keyConfig, lang, key), done, key, seen + {lang})
  {
    var r := AddPair(keyConfig, lang, key);
    forall l | l in r
      ensures exists k :: k in r[l]
    {
      if l == lang {
        assert key in r[l];
      } else {
        var k :| k in keyConfig[l];
        assert k in r[l];
      }
    }
  }

  /** Moving from one key to the next: all languages of `key` were visited. */
  lemma KeyDone(config: Config, keyConfig: map<string, map<string, string>>, done: set<string>, key: string)
    requires key in config
    requires Partial(config, keyConfig, done, key, config[key].Keys)
    ensures Partial(config, keyConfig, done + {key}, "", {})
  {
  }

  /** Starting a key that was not visited yet. */
  lemma KeyStart(config: Config, keyConfig: map<string, map<string, string>>, done: set<string>, key: string)
    requires Partial(config, keyConfig, done, "", {})
    ensures Partial(config, keyConfig, done, key, {})
  {
  }

  /** Every key visited: the partial inversion is the whole one. */
  lemma AllDone(config: Config, keyConfig: map<string, map<string, string>>)
    requires Partial(config, keyConfig, config.Keys, "", {})
    ensures Inverts(config, keyConfig)
  {
  }

  /** The inner loop: records every language of `key`. */
  method AddLanguages(config: Config, keyConfig: map<string, map<string, string>>, done: set<string>, key: string)
    returns (r: map<string, map<string, string>>)
    requires key in config
    requires Partial(config, keyConfig, done, key, {})
    ensures Partial(config, r, done, key, config[key].Keys)
  {
    r := keyConfig;
    var langs := config[key].Keys;
    var seen: set<string> := {};
    while langs != {}
      invariant langs + seen == config[key].Keys && langs !! seen
      invariant Partial(config, r, done, key, seen)
      decreases |langs|
    {
      var lang :| lang in langs;
      AddPairStep(config, r, done, key, seen, lang);
      r := AddPair(r, lang, key);
      langs := langs - {lang};
      seen := seen + {lang};
    }
  }

  /** `NewI18NBuilder`: keeps the table and builds its inversion, visiting the keys and their
      languages in whatever order the map hands them out. */
  method NewI18nBuilder(config: Config) returns (b: Builder)
    ensures b.langConfig == config
    ensures Inverts(config, b.keyConfig)
  {
    var keyConfig: map<string, map<string, string>> := map[];
    var todo := config.Keys;
    var done: set<string> := {};
    while todo != {}
      invariant todo + done == config.Keys && todo !! done
      invariant Partial(config, keyConfig, done, "", {})
      decreases |todo|
    {
      var key :| key in todo;
      KeyStart(config, keyConfig, done, key);
      keyConfig := AddLanguages(config, keyConfig, done, key);
      KeyDone(config, keyConfig, done, key);
      todo := todo - {key};
      done := done + {key};
    }
    AllDone(config, keyConfig);
    b := Builder(config, keyConfig);
  }

  /** `GetConfig`: the table the builder was made from. */
  function GetConfig(b: Builder): (r: Config)
    ensures forall key, lang :: Has(r, key, lang) ==> Get(b, key, lang) == r[key][lang]
    ensures forall key, lang :: !Has(r, key, lang) ==> Get(b, key, lang) == key
  {
    b.langConfig
  }

  /** `Get`: the translation of `key` into `lang`, or `key` itself when there is none. */
  function Get(b: Builder, key: string, lang: string): (r: string)
    ensures Has(b.langConfig, key, lang) ==> r == b.langConfig[key][lang]
    ensures !Has(b.langConfig, key, lang) ==> r == key
  {
    if key in b.langConfig && lang in b.langConfig[key] then b.langConfig[key][lang] else key
  }

  /** `GetConfigWithKey`: the translations of `key`, or nil for an unknown key. */
  function GetConfigWithKey(b: Builder, key: string): (r: Option<map<string, string>>)
    ensures r.None? <==> key !in GetConfig(b)
    ensures r.Some? ==> r.value == GetConfig(b)[key]
  {
    if key in b.langConfig then Some(b.langConfig[key]) else None
  }

  /** `Get` agrees with looking the key up first and the language second. */
  lemma GetThroughConfigWithKey(b: Builder, key: string, lang: string)
    ensures Get(b, key, lang) ==
      match GetConfigWithKey(b, key)
      case None => key
      case Some(langs) => if lang in langs then langs[lang] else key
  {
  }

  /** `GetKeyConfig`: the keys translated into `lang`, or nil. */
  function GetKeyConfig(b: Builder, lang: string): (r: Option<map<string, string>>)
    ensures r.None? <==> lang !in b.keyConfig
    ensures r.Some? ==> r.value == b.keyConfig[lang]
  {
    if lang in b.keyConfig then Some(b.keyConfig[lang]) else None
  }

  /** For a builder made by `NewI18nBuilder`: nil exactly when no key is translated into
      `lang`; otherwise the domain is the keys translated into `lang`, and each maps to itself
      rather than to its translation. */
  lemma KeyConfigOfBuilder(b: Builder, lang: string)
    requires Inverts(b.langConfig, b.keyConfig)
    ensures GetKeyConfig(b, lang).None? <==> forall key :: !Has(GetConfig(b), key, lang)
    ensures GetKeyConfig(b, lang).Some? ==>
      forall key :: (key in GetKeyConfig(b, lang).value <==> Has(GetConfig(b), key, lang))
    ensures GetKeyConfig(b, lang).Some? ==>
      forall key :: key in GetKeyConfig(b, lang).value ==> GetKeyConfig(b, lang).value[key] == key
  {
    if lang in b.keyConfig {
      var key :| key in b.keyConfig[lang];
      assert Has(GetConfig(b), key, lang);
    }
  }

  /** Every key listed under `lang` has a translation there: `Get` does not fall back for it. */
  lemma KeyConfigKeysTranslate(b: Builder, lang: string, key: string)
    requires Inverts(b.langConfig, b.keyConfig)
    requires GetKeyConfig(b, lang).Some? && key in GetKeyConfig(b, lang).value
    ensures Get(b, key, lang) == b.langConfig[key][lang]
  {
  }

  /** `GetWithParams`: `Get`, then each parameter name replaced by its value in the order the
      parameters are visited. `strings.ReplaceAll` is the parameter `replaceAll`. */
  function GetWithParams(b: Builder, key: string, lang: string, params: seq<(string, string)>,
                         replaceAll: (string, string, string) -> string): (r: string)
    ensures params == [] ==> r == Get(b, key, lang)
  {
    if params == [] then Get(b, key, lang)
    else
      var (k, v) := params[|params| - 1];
      replaceAll(GetWithParams(b, key, lang, params[..|params| - 1], replaceAll), k, v)
  }
}
