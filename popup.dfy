/** The popup (popup.js): the four switches `updateUI` sets from a stored
    configuration and the configuration `saveConfig` builds back from
    them. */
module Popup {
  import opened Common

  /** The checked state of the four switches. */
  datatype FormState = FormState(ansiColors: bool, errorHighlighting: bool,
                                 foldEnabled: bool, darkTheme: bool)

  const AllOn := FormState(true, true, true, true)

  /** `config.key !== false`: a switch is off only for the boolean `false`;
      a missing key, `null`, `0` or `""` all leave it on. */
  predicate SwitchOn(config: Config, key: string) {
    !(key in config && config[key] == Bool(false))
  }

  /** `config.theme === 'default' || config.theme === undefined`. */
  predicate DarkTheme(config: Config) {
    "theme" !in config || config["theme"] == Str("default")
  }

  /** The switches `updateUI` shows for `config`. */
  function FormOf(config: Config): FormState {
    FormState(SwitchOn(config, "ansiColors"), SwitchOn(config, "errorHighlighting"),
              SwitchOn(config, "foldEnabled"), DarkTheme(config))
  }

  /** The object `saveConfig` sends: three booleans, the theme name and
      `proFeatures: false`, and nothing else. */
  function ConfigOf(form: FormState): (r: Config)
    ensures r.Keys == {"ansiColors", "errorHighlighting", "foldEnabled", "theme", "proFeatures"}
    ensures r["proFeatures"] == Bool(false)
    ensures "searchEnabled" !in r && "jumpToFailure" !in r
    ensures r["theme"] == Str("default") <==> form.darkTheme
    ensures r["theme"] == Str("default") || r["theme"] == Str("light")
  {
    map[
      "ansiColors" := Bool(form.ansiColors),
      "errorHighlighting" := Bool(form.errorHighlighting),
      "foldEnabled" := Bool(form.foldEnabled),
      "theme" := Str(if form.darkTheme then "default" else "light"),
      "proFeatures" := Bool(false)
    ]
  }

  /** `response || {}`: the configuration `getConfig` answered, or the
      empty object when nothing is stored. */
  function LoadConfig(response: Option<Config>): (r: Config)
    ensures response.None? ==> r == map[]
    ensures response.Some? ==> r == response.value
  {
    response.GetOr(map[])
  }

  /** `response?.isPro`: the popup shows "Pro Active" when the answer is
      truthy. */
  predicate ShowsPro(isPro: Option<Value>) {
    isPro.Some? && Truthy(isPro.value)
  }

  /** The four checkbox elements of the popup page. */
  class PopupForm {
    var ansiColors: bool
    var errorHighlighting: bool
    var foldEnabled: bool
    var darkTheme: bool

    function Form(): FormState
      reads this
    {
      FormState(ansiColors, errorHighlighting, foldEnabled, darkTheme)
    }

    /** The page as loaded, with whatever states its markup gives. */
    constructor(initial: FormState)
      ensures Form() == initial
    {
      ansiColors := initial.ansiColors;
      errorHighlighting := initial.errorHighlighting;
      foldEnabled := initial.foldEnabled;
      darkTheme := initial.darkTheme;
    }

    /** `updateUI`: sets every switch from `config`. */
    method UpdateUI(config: Config)
      modifies this
      ensures Form() == FormOf(config)
    {
      ansiColors := SwitchOn(config, "ansiColors");
      errorHighlighting := SwitchOn(config, "errorHighlighting");
      foldEnabled := SwitchOn(config, "foldEnabled");
      darkTheme := DarkTheme(config);
    }

    /** The object `saveConfig` builds from the switches; reading them
        changes nothing, and the popup reopened on it shows the same
        switches. */
    method ReadConfig() returns (config: Config)
      ensures config == ConfigOf(Form())
      ensures FormOf(config) == Form()
    {
      config := map[
        "ansiColors" := Bool(ansiColors),
        "errorHighlighting" := Bool(errorHighlighting),
        "foldEnabled" := Bool(foldEnabled),
        "theme" := Str(if darkTheme then "default" else "light"),
        "proFeatures" := Bool(false)
      ];
      FormRoundTrip(Form());
    }
  }

  // ---------------------------------------------------------------------

  /** Saving and reopening shows the same switches. */
  lemma FormRoundTrip(form: FormState)
    ensures FormOf(ConfigOf(form)) == form
  {
    var c := ConfigOf(form);
    assert c["ansiColors"] == Bool(form.ansiColors);
    assert c["errorHighlighting"] == Bool(form.errorHighlighting);
    assert c["foldEnabled"] == Bool(form.foldEnabled);
  }

  /** Showing a configuration and saving it again: each switch keeps a
      boolean value and turns anything else into `true`; the theme becomes
      `"default"` exactly when it was `"default"` or missing, `"light"`
      otherwise; `proFeatures` is reset and the other keys are dropped. */
  lemma ResaveIsLossy(c: Config, key: string)
    requires key in {"ansiColors", "errorHighlighting", "foldEnabled"}
    ensures var r := ConfigOf(FormOf(c));
      && (key in c && c[key].Bool? ==> r[key] == c[key])
      && (key !in c || !c[key].Bool? ==> r[key] == Bool(true))
      && (r["theme"] == Str("default") <==> "theme" !in c || c["theme"] == Str("default"))
      && (r["theme"] != Str("default") ==> r["theme"] == Str("light"))
      && r["proFeatures"] == Bool(false)
      && r.Keys == {"ansiColors", "errorHighlighting", "foldEnabled", "theme", "proFeatures"}
  {
    var r := ConfigOf(FormOf(c));
    assert r["ansiColors"] == Bool(SwitchOn(c, "ansiColors"));
    assert r["errorHighlighting"] == Bool(SwitchOn(c, "errorHighlighting"));
    assert r["foldEnabled"] == Bool(SwitchOn(c, "foldEnabled"));
  }

  /** With no stored configuration every switch is on. */
  lemma NothingStoredAllOn()
    ensures FormOf(LoadConfig(None)) == AllOn
  {
  }
}
