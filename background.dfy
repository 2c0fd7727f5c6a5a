/** The background service worker (background.js): the default
    configuration written on install, the context-menu dispatch and the
    message handler over the two synced storage keys `loglensPro` and
    `loglensConfig`. */
module Background {
  import opened Common

  /** The synced storage as the worker uses it: the `loglensPro` flag and
      the `loglensConfig` object, each possibly unset. */
  datatype Store = Store(pro: Option<Value>, config: Option<Config>)

  /** The configuration `onInstalled` writes. */
  const InstallDefaults: Config := map[
    "ansiColors" := Bool(true),
    "searchEnabled" := Bool(true),
    "foldEnabled" := Bool(true),
    "errorHighlighting" := Bool(true),
    "jumpToFailure" := Bool(true),
    "theme" := Str("default"),
    "proFeatures" := Bool(false)
  ]

  /** A message by its `action`; the configuration a sender attaches is
      `None` when it attaches none. */
  datatype Message =
    | GetConfig
    | SaveConfig(config: Config)
    | CheckProStatus
    | ActivatePro(attached: Option<Config>)
    | Unknown(action: string)

  datatype Response =
    | ConfigIs(config: Option<Config>)   // sendResponse(result.loglensConfig)
    | Success                            // sendResponse({ success: true })
    | ProIs(isPro: Value)                // sendResponse({ isPro })
    | NoResponse                         // the listener answers nothing

  /** `result.loglensConfig?.proFeatures === true`. */
  predicate ProFeaturesOn(config: Option<Config>) {
    config.Some? && "proFeatures" in config.value && config.value["proFeatures"] == Bool(true)
  }

  /** `result.loglensPro || (...)`: the stored flag itself when it is
      truthy, the boolean outcome of the configuration test otherwise. */
  function ProStatus(store: Store): (v: Value)
    ensures Truthy(v) <==> (store.pro.Some? && Truthy(store.pro.value)) || ProFeaturesOn(store.config)
  {
    if store.pro.Some? && Truthy(store.pro.value) then store.pro.value
    else Bool(ProFeaturesOn(store.config))
  }

  /** `{ ...config, proFeatures: true }`; spreading `undefined` adds no
      properties. */
  function WithProFeatures(config: Option<Config>): (r: Config)
    ensures "proFeatures" in r && r["proFeatures"] == Bool(true)
    ensures config.Some? ==> forall k :: k in config.value && k != "proFeatures"
                                         ==> k in r && r[k] == config.value[k]
    ensures forall k :: k in r ==> k == "proFeatures" || (config.Some? && k in config.value)
  {
    config.GetOr(map[])["proFeatures" := Bool(true)]
  }

  /** The message listener: the store it leaves and the response it
      sends. */
  function Handle(store: Store, m: Message): (Store, Response) {
    match m
    case GetConfig => (store, ConfigIs(store.config))
    case SaveConfig(c) => (store.(config := Some(c)), Success)
    case CheckProStatus => (store, ProIs(ProStatus(store)))
    case ActivatePro(c) => (Store(Some(Bool(true)), Some(WithProFeatures(c))), Success)
    case Unknown(_) => (store, NoResponse)
  }

  /** `onInstalled` writes the defaults and leaves `loglensPro` alone. */
  function Install(store: Store): (r: Store)
    ensures r.pro == store.pro
    ensures r.config == Some(InstallDefaults)
  {
    store.(config := Some(InstallDefaults))
  }

  /** What reaches the worker: an install event or a message. */
  datatype Event = Installed | Received(m: Message)

  function Apply(store: Store, e: Event): Store {
    match e
    case Installed => Install(store)
    case Received(m) => Handle(store, m).0
  }

  /** The store after a run of events, in order. */
  function Run(store: Store, events: seq<Event>): Store
    decreases |events|
  {
    if |events| == 0 then store else Run(Apply(store, events[0]), events[1..])
  }

  /** The configuration the store holds after `events`, read from the last
      event that writes one. */
  function LastWritten(initial: Option<Config>, events: seq<Event>): Option<Config> {
    if |events| == 0 then initial
    else
      var e := events[|events| - 1];
      match e
      case Installed => Some(InstallDefaults)
      case Received(SaveConfig(c)) => Some(c)
      case Received(ActivatePro(c)) => Some(WithProFeatures(c))
      case Received(_) => LastWritten(initial, events[..|events| - 1])
  }

  /** The context-menu item ids and the message each sends to the tab. */
  const EnhanceItem: string := "loglens-enhance-page"
  const CopyItem: string := "loglens-copy-logs"

  function MenuAction(menuItemId: string): (r: Option<string>)
    ensures r.Some? <==> menuItemId == EnhanceItem || menuItemId == CopyItem
  {
    if menuItemId == EnhanceItem then Some("enhanceLogs")
    else if menuItemId == CopyItem then Some("copyLogs")
    else None
  }

  /** The storage the worker owns, as an object whose keys it sets. */
  class SyncStorage {
    var pro: Option<Value>
    var config: Option<Config>

    function Contents(): Store
      reads this
    {
      Store(pro, config)
    }

    constructor(initial: Store)
      ensures Contents() == initial
    {
      pro := initial.pro;
      config := initial.config;
    }

    method OnInstalled()
      modifies this
      ensures Contents() == Install(old(Contents()))
    {
      config := Some(InstallDefaults);
    }

    method OnMessage(m: Message) returns (response: Response)
      modifies this
      ensures (Contents(), response) == Handle(old(Contents()), m)
    {
      match m {
        case GetConfig =>
          response := ConfigIs(config);
        case SaveConfig(c) =>
          config := Some(c);
          response := Success;
        case CheckProStatus =>
          response := ProIs(ProStatus(Contents()));
        case ActivatePro(c) =>
          pro := Some(Bool(true));
          config := Some(WithProFeatures(c));
          response := Success;
        case Unknown(_) =>
          response := NoResponse;
      }
    }
  }

  // ---------------------------------------------------------------------

  /** `checkProStatus` reports a truthy `isPro` exactly when `loglensPro` is
      truthy or the stored configuration has `proFeatures === true`, and
      changes nothing. */
  lemma CheckProIff(store: Store)
    ensures Handle(store, CheckProStatus).0 == store
    ensures Handle(store, CheckProStatus).1.ProIs?
    ensures Truthy(Handle(store, CheckProStatus).1.isPro)
        <==> (store.pro.Some? && Truthy(store.pro.value)) || ProFeaturesOn(store.config)
  {
  }

  /** After `activatePro` the flag is set, the given configuration is
      stored with `proFeatures` forced on, and `checkProStatus` reports
      Pro. */
  lemma ActivateMakesPro(store: Store, c: Option<Config>)
    ensures var (s, r) := Handle(store, ActivatePro(c));
      r == Success && s.pro == Some(Bool(true))
      && s.config == Some(WithProFeatures(c))
      && Truthy(Handle(s, CheckProStatus).1.isPro)
  {
  }

  /** `saveConfig` replaces the stored configuration wholesale, keeps the
      flag and answers success. */
  lemma SaveReplaces(store: Store, c: Config)
    ensures Handle(store, SaveConfig(c)) == (Store(store.pro, Some(c)), Success)
  {
  }

  /** Once `loglensPro` is truthy, no sequence of installs and messages
      makes the worker report a user as not Pro. */
  lemma {:induction false} ProSticky(store: Store, events: seq<Event>)
    requires store.pro.Some? && Truthy(store.pro.value)
    ensures Run(store, events).pro.Some? && Truthy(Run(store, events).pro.value)
    ensures Truthy(ProStatus(Run(store, events)))
    decreases |events|
  {
    if |events| > 0 {
      ProSticky(Apply(store, events[0]), events[1..]);
    }
  }

  lemma {:induction false} LastWrittenPrefix(initial: Option<Config>, e: Event, events: seq<Event>)
    ensures LastWritten(initial, [e] + events) == LastWritten(LastWritten(initial, [e]), events)
    decreases |events|
  {
    if |events| > 0 {
      var all := [e] + events;
      assert all[..|all| - 1] == [e] + events[..|events| - 1];
      assert all[|all| - 1] == events[|events| - 1];
      LastWrittenPrefix(initial, e, events[..|events| - 1]);
    }
  }

  /** `getConfig` answers exactly the configuration most recently stored,
      by an install, a save or an activation. */
  lemma {:induction false} GetConfigReturnsLast(store: Store, events: seq<Event>)
    ensures Run(store, events).config == LastWritten(store.config, events)
    ensures Handle(Run(store, events), GetConfig).1 == ConfigIs(LastWritten(store.config, events))
    decreases |events|
  {
    if |events| > 0 {
      var e := events[0];
      assert events == [e] + events[1..];
      GetConfigReturnsLast(Apply(store, e), events[1..]);
      LastWrittenPrefix(store.config, e, events[1..]);
      assert [e][..0] == [];
    }
  }

  /** Each menu item sends its own action, and the actions tell the items
      apart. */
  lemma MenuDispatch(id: string)
    ensures MenuAction(EnhanceItem) == Some("enhanceLogs")
    ensures MenuAction(CopyItem) == Some("copyLogs")
    ensures MenuAction(id).Some? && MenuAction(id) == MenuAction(EnhanceItem) ==> id == EnhanceItem
    ensures MenuAction(id).Some? && MenuAction(id) == MenuAction(CopyItem) ==> id == CopyItem
  {
  }
}
