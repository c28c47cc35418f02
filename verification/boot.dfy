/** Boot: app_main. NVS is initialised (its result ignored), the config is loaded
    once, the device publishes its access point when the config is uninitialised
    and joins the stored network otherwise, and the HTTP server is started once
    that call returns. */
module Boot {
  import opened Common
  import opened NvStorage
  import opened Config
  import opened NetConfig
  import Interface

  /** The calls app_main makes, in order. */
  datatype Step =
    | InitStore
    | LoadConfig
    | PublishApStep
    | ConnectStep(ssid: string, psk: string, security: uint8)
    | StartServer

  /** How app_main ends: std::terminate while loading the config, waiting forever
      for a station event, idling forever once the server runs, or returning when
      the server could not start. */
  datatype Ending = Aborted | Waiting | Serving | Exited

  /** Result codes and events app_main meets: NVS init, the config's open, the
      access point and station setup calls, the station events and httpd_start. */
  datatype BootEnv = BootEnv(
    init: InitEnv, load: OpenEnv, ap: ApSetup, sta: StaSetup,
    events: seq<StaEvent>, serverStarts: bool)

  datatype BootResult = BootResult(
    steps: seq<Step>, ending: Ending, flash: Flash,
    ap: Option<ApResult>, station: Option<ConnectResult>)

  /** The config app_main loads, when loading it does not end the process. */
  function Loaded(flash: Flash, env: BootEnv): Run<Record> {
    Reload(Init(flash, env.init).flash, env.load)
  }

  /** How app_main ends once the server step is reached. */
  function ServerEnding(env: BootEnv): Ending {
    if env.serverStarts then Serving else Exited
  }

  /** Starting the server after the network step; the loop after it never ends. */
  function Serve(steps: seq<Step>, flash: Flash, env: BootEnv, ap: Option<ApResult>, station: Option<ConnectResult>): (r: BootResult)
    ensures r.steps == steps + [StartServer] && r.flash == flash && r.ap == ap && r.station == station
    ensures r.ending == ServerEnding(env)
    ensures r.ending == Serving <==> env.serverStarts
  {
    BootResult(steps + [StartServer], ServerEnding(env), flash, ap, station)
  }

  /** Loading the config changes the partition only by erasing it. */
  lemma LoadedFlash(flash: Flash, env: BootEnv)
    ensures Loaded(flash, env).flash == flash || Loaded(flash, env).flash == map[]
  {
    var i := Init(flash, env.init);
    assert i.flash == flash || i.flash == map[];
    var o := Open(i.flash, NAMESPACE, env.load);
    assert o.flash == i.flash || o.flash == map[] by {
      if env.load.first == NotInitialized {
        var j := Init(i.flash, env.load.reinit);
        assert j.flash == i.flash || j.flash == map[];
      }
    }
  }

  predicate IsConnect(s: Step) {
    s.ConnectStep?
  }

  /** app_main. The station's retry counter starts at its static initial value 0. */
  function AppMain(flash: Flash, env: BootEnv): (r: BootResult)
    ensures r.flash == flash || r.flash == map[]
    ensures Loaded(flash, env).Terminated? ==> r.ending == Aborted && r.steps == [InitStore, LoadConfig]
    ensures Loaded(flash, env).Normal? && Uninitialized(Loaded(flash, env).value) ==>
      && r.steps == [InitStore, LoadConfig, PublishApStep, StartServer]
      && r.ending == ServerEnding(env) && r.ap == Some(PublishAp(env.ap)) && r.station == None
    ensures Loaded(flash, env).Normal? && !Uninitialized(Loaded(flash, env).value) ==>
      var c := Loaded(flash, env).value;
      var link := ConnectStation(RECONNECT_ATTEMPTS, env.sta, c.ssid, c.psk, c.security, 0, env.events);
      && r.ap == None && r.station == Some(link)
      && (link.applied.Some? <==> ConfigApplied(env.sta))
      && (link.applied.Some? ==> link.applied.value == StationConfig(c.ssid, c.psk, c.security))
      && (link.Blocked? ==> r.steps == [InitStore, LoadConfig, ConnectStep(c.ssid, c.psk, c.security)] && r.ending == Waiting)
      && (link.Returned? ==>
            && r.steps == [InitStore, LoadConfig, ConnectStep(c.ssid, c.psk, c.security), StartServer]
            && r.ending == ServerEnding(env))
    ensures r.station.Some? && r.station.value.Returned? ==> r.station.value.status != Some(ConnectFailed)
  {
    LoadedFlash(flash, env);
    var store := Init(flash, env.init);
    match Reload(store.flash, env.load)
    case Terminated(f) => BootResult([InitStore, LoadConfig], Aborted, f, None, None)
    case Normal(f, c) =>
      if Uninitialized(c) then
        Serve([InitStore, LoadConfig, PublishApStep], f, env, Some(PublishAp(env.ap)), None)
      else
        var steps := [InitStore, LoadConfig, ConnectStep(c.ssid, c.psk, c.security)];
        var link := ConnectStation(RECONNECT_ATTEMPTS, env.sta, c.ssid, c.psk, c.security, 0, env.events);
        if link.Blocked? then BootResult(steps, Waiting, f, None, Some(link))
        else Serve(steps, f, env, None, Some(link))
  }

  /** The order app_main keeps on every path: NVS and the config first and once,
      then exactly one of the two network modes (none when loading aborts), and the
      server last, reached exactly when the network step returns. */
  lemma AppMainOrder(flash: Flash, env: BootEnv)
    ensures var r := AppMain(flash, env);
      && |r.steps| >= 2 && r.steps[0] == InitStore && r.steps[1] == LoadConfig
      && (forall i :: 2 <= i < |r.steps| ==> r.steps[i] != InitStore && r.steps[i] != LoadConfig)
      && (r.ending == Aborted <==> Loaded(flash, env).Terminated?)
      && (r.ending == Aborted <==> |r.steps| == 2)
      && (|r.steps| > 2 ==> (r.steps[2] == PublishApStep <==> !IsConnect(r.steps[2])))
      && (PublishApStep in r.steps ==> forall i :: 0 <= i < |r.steps| ==> !IsConnect(r.steps[i]))
      && (StartServer in r.steps <==> r.ending == Serving || r.ending == Exited)
      && (StartServer in r.steps ==> |r.steps| == 4 && r.steps[3] == StartServer)
      && (r.ending == Serving <==> StartServer in r.steps && env.serverStarts)
  {
    var r := AppMain(flash, env);
    match Loaded(flash, env)
    case Terminated(_) =>
      assert r.steps == [InitStore, LoadConfig];
    case Normal(_, c) =>
      if Uninitialized(c) {
        assert r.steps == [InitStore, LoadConfig, PublishApStep, StartServer];
      } else if ConnectStation(RECONNECT_ATTEMPTS, env.sta, c.ssid, c.psk, c.security, 0, env.events).Blocked? {
        assert r.steps == [InitStore, LoadConfig, ConnectStep(c.ssid, c.psk, c.security)];
      } else {
        assert r.steps == [InitStore, LoadConfig, ConnectStep(c.ssid, c.psk, c.security), StartServer];
      }
  }

  /* ---------- properties relating several calls ---------- */

  /** A blank partition boots into access-point mode and serves the form. */
  lemma BlankPartitionPublishesAp(env: BootEnv)
    requires env.init.first == EspOk && env.load.first == EspOk
    ensures AppMain(map[], env).steps == [InitStore, LoadConfig, PublishApStep, StartServer]
  {
    ReloadAfterErase(env.load);
  }

  /** A boot that reads a configured network joins it. */
  lemma StoredNetworkJoined(flash: Flash, benv: BootEnv, c: Record)
    requires benv.init.first == EspOk && Reload(flash, benv.load) == Normal(flash, c) && !Uninitialized(c)
    ensures |AppMain(flash, benv).steps| >= 3 && AppMain(flash, benv).steps[2] == ConnectStep(c.ssid, c.psk, c.security)
    ensures ConfigApplied(benv.sta) ==>
      AppMain(flash, benv).station == Some(ConnectStation(RECONNECT_ATTEMPTS, benv.sta, c.ssid, c.psk, c.security, 0, benv.events))
      && AppMain(flash, benv).station.value.applied == Some(StationConfig(c.ssid, c.psk, c.security))
  {
    assert Loaded(flash, benv) == Normal(flash, c);
    var boot := AppMain(flash, benv);
    if ConnectStation(RECONNECT_ATTEMPTS, benv.sta, c.ssid, c.psk, c.security, 0, benv.events).Blocked? {
      assert boot.steps == [InitStore, LoadConfig, ConnectStep(c.ssid, c.psk, c.security)];
    } else {
      assert boot.steps == [InitStore, LoadConfig, ConnectStep(c.ssid, c.psk, c.security), StartServer];
    }
  }

  /** The network stored by set_network is the one the next boot joins, with the
      WPA2-PSK threshold the handler stores. */
  lemma SetNetworkThenBoot(text: string, lookup: Interface.KeyLookup, flash: Flash,
                           henv: Interface.HandlerEnv, benv: BootEnv)
    requires Interface.CommandOf(text, lookup) == "set_network"
    requires Interface.GetKeyValue(lookup, CStr(text), "ssid") != ""
    requires Interface.GetKeyValue(lookup, CStr(text), "psk") != ""
    requires Interface.Direct(henv) && benv.init.first == EspOk && benv.load.first == EspOk
    ensures var r := Interface.CommandHandler(Interface.QueryText(text), lookup, flash, henv);
      && r.Normal? && r.value.restart
      && var boot := AppMain(r.flash, benv);
      && |boot.steps| >= 3
      && boot.steps[2] == ConnectStep(Interface.GetKeyValue(lookup, CStr(text), "ssid"),
                                      Interface.GetKeyValue(lookup, CStr(text), "psk"),
                                      Interface.WIFI_AUTH_WPA2_PSK)
  {
    var c := Record(Interface.GetKeyValue(lookup, CStr(text), "ssid"),
                    Interface.GetKeyValue(lookup, CStr(text), "psk"),
                    Interface.WIFI_AUTH_WPA2_PSK);
    Interface.SetNetworkPersists(text, lookup, flash, henv, benv.load);
    var r := Interface.CommandHandler(Interface.QueryText(text), lookup, flash, henv);
    StoredNetworkJoined(r.flash, benv, c);
  }
}
