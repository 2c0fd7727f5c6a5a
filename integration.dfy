/** How the three scripts meet: the popup saves through the background
    worker's `saveConfig`, reopens on what `getConfig` answers and asks
    `checkProStatus`; the content script merges the stored
    `loglensConfig` into its defaults when it starts. */
module Integration {
  import opened Common
  import AnsiRenderer
  import ErrorHighlighter
  import Background
  import Popup
  import LogLens

  /** The configuration the content script runs with on a page loaded
      while `store` is in place. */
  function ContentConfig(store: Background.Store): (r: Config)
    ensures store.config.None? ==> r == LogLens.ContentDefaults
    ensures store.config.Some? ==> r.Keys >= LogLens.ContentDefaults.Keys
  {
    LogLens.MergeConfig(LogLens.ContentDefaults, store.config)
  }

  /** Saving the popup and opening it again shows the switches as they
      were left. */
  lemma SaveThenReopen(store: Background.Store, form: Popup.FormState)
    ensures var (s, r) := Background.Handle(store, Background.SaveConfig(Popup.ConfigOf(form)));
      && r == Background.Success
      && var answer := Background.Handle(s, Background.GetConfig).1.config;
      Popup.FormOf(Popup.LoadConfig(answer)) == form
  {
    Popup.FormRoundTrip(form);
  }

  /** The popup always saves `proFeatures: false`, so after a save the
      worker reports Pro exactly when `loglensPro` is set; a Pro status
      that rested only on the configuration is lost. */
  lemma SaveKeepsOnlyFlag(store: Background.Store, form: Popup.FormState)
    ensures var s := Background.Handle(store, Background.SaveConfig(Popup.ConfigOf(form))).0;
      Truthy(Background.ProStatus(s)) <==> store.pro.Some? && Truthy(store.pro.value)
  {
    var s := Background.Handle(store, Background.SaveConfig(Popup.ConfigOf(form))).0;
    assert !Background.ProFeaturesOn(s.config);
  }

  /** Activation survives any later popup save, and the popup then shows
      "Pro Active". */
  lemma ActivateThenSave(store: Background.Store, attached: Option<Config>, form: Popup.FormState)
    ensures var events := [Background.Received(Background.ActivatePro(attached)),
                           Background.Received(Background.SaveConfig(Popup.ConfigOf(form)))];
      var s := Background.Run(store, events);
      Popup.ShowsPro(Some(Background.Handle(s, Background.CheckProStatus).1.isPro))
  {
    var events := [Background.Received(Background.ActivatePro(attached)),
                   Background.Received(Background.SaveConfig(Popup.ConfigOf(form)))];
    var s1 := Background.Apply(store, events[0]);
    Background.ProSticky(s1, events[1..]);
    assert Background.Run(store, events) == Background.Run(s1, events[1..]);
  }

  /** On a page loaded after a popup save, the content script renders
      escape sequences and highlights errors exactly as the switches say,
      and keeps search, folding and the jump enabled from its defaults. */
  lemma ContentFollowsPopup(store: Background.Store, form: Popup.FormState, html: string)
    ensures var c := ContentConfig(Background.Handle(store, Background.SaveConfig(Popup.ConfigOf(form))).0);
      && (Enabled(c, "ansiColors") <==> form.ansiColors)
      && (Enabled(c, "errorHighlighting") <==> form.errorHighlighting)
      && (Enabled(c, "foldEnabled") <==> form.foldEnabled)
      && Enabled(c, "searchEnabled") && Enabled(c, "jumpToFailure")
      && LogLens.EnhancedMarkup(c, html)
         == (var rendered := if form.ansiColors then AnsiRenderer.RenderAnsiColors(html) else html;
             if form.errorHighlighting then ErrorHighlighter.HighlightErrors(rendered) else rendered)
  {
    var saved := Popup.ConfigOf(form);
    var c := LogLens.MergeConfig(LogLens.ContentDefaults, Some(saved));
    assert c["ansiColors"] == Bool(form.ansiColors);
    assert c["errorHighlighting"] == Bool(form.errorHighlighting);
    assert c["foldEnabled"] == Bool(form.foldEnabled);
    assert "searchEnabled" !in saved && "jumpToFailure" !in saved;
    assert c["searchEnabled"] == Bool(true) && c["jumpToFailure"] == Bool(true);
  }

  /** Right after install the popup shows every switch on and the content
      script runs both transforms, as with no stored configuration. */
  lemma InstallAllOn(store: Background.Store, html: string)
    ensures var s := Background.Install(store);
      && Popup.FormOf(Popup.LoadConfig(Background.Handle(s, Background.GetConfig).1.config)) == Popup.AllOn
      && LogLens.EnhancedMarkup(ContentConfig(s), html)
         == ErrorHighlighter.HighlightErrors(AnsiRenderer.RenderAnsiColors(html))
  {
    var c := ContentConfig(Background.Install(store));
    assert c["ansiColors"] == Bool(true) && c["errorHighlighting"] == Bool(true);
  }

  /** The popup reads a switch as `!== false`, the content script as
      truthiness after merging: they agree whenever the stored value is a
      boolean or missing, which is all the extension itself ever stores. */
  lemma SwitchesAgree(saved: Config, key: string)
    requires key in LogLens.ContentDefaults && LogLens.ContentDefaults[key] == Bool(true)
    requires key in saved ==> saved[key].Bool?
    ensures Popup.SwitchOn(saved, key) <==> Enabled(LogLens.MergeConfig(LogLens.ContentDefaults, Some(saved)), key)
  {
  }

  /** A stored `null` shows the switch on in the popup while the content
      script treats the feature as off. */
  lemma NullDisagrees(key: string)
    requires key in {"ansiColors", "errorHighlighting", "foldEnabled"}
    ensures Popup.SwitchOn(map[key := Null], key)
    ensures !Enabled(LogLens.MergeConfig(LogLens.ContentDefaults, Some(map[key := Null])), key)
  {
    var c := LogLens.MergeConfig(LogLens.ContentDefaults, Some(map[key := Null]));
    assert c[key] == Null;
  }
}
